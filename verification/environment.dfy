/** The world state and the action-resolution engine (environment.rs). */
module World {
  import opened Wrappers
  import opened Types
  import opened Grids

  /** The static classification of a cell. A door's colour never changes;
      only its `open` flag goes from false to true. */
  datatype CellType = Floor | Wall | Door(open: bool, doorType: Option<DoorKeyType>)

  /** A move carries signed offsets of any size; the behaviours only ever
      produce -1, 0 or 1. */
  datatype Action = Wait | Move(dx: int, dy: int)

  /** Why an action failed; the source reports these as message strings. */
  datatype FailureReason =
    | AgentNotFound
    | TargetOutOfBounds
    | IntoWall
    | Occupied
    | MissingKey(keyType: DoorKeyType)

  datatype ActionResult = Success | Failure(reason: FailureReason) | Win

  /** One agent's bookkeeping; the inventory is kept in pickup order. */
  datatype AgentState = AgentState(id: EntityId, position: Position, inventory: seq<Item>)

  /** The three co-indexed layers plus the agent registry. The map from ids to
      behaviours is not part of the state: behaviours are passed alongside. */
  datatype Environment = Environment(
    terrain: Grid<CellType>,
    items: Grid<Option<Item>>,
    agentLocations: Grid<Option<EntityId>>,
    agents: map<EntityId, AgentState>,
    nextEntityId: EntityId)

  /** What a behaviour sees when it decides: a snapshot of its own state and
      of the three layers. */
  datatype View = View(
    agentState: AgentState,
    location: Position,
    terrain: Grid<CellType>,
    items: Grid<Option<Item>>,
    agentLocations: Grid<Option<EntityId>>)

  /** Why an item or an agent could not be placed. */
  datatype PlaceError =
    | PlaceOutOfBounds
    | ItemPresent
    | AgentPresent
    | InsideWall
    | InsideClosedDoor
    | IdInUse(id: EntityId)

  /** The three layers have one size and every agent stands inside it; this is
      what the unchecked indexing of the source relies on. */
  predicate Shaped(env: Environment)
  {
    && env.items.width == env.terrain.width && env.items.height == env.terrain.height
    && env.agentLocations.width == env.terrain.width && env.agentLocations.height == env.terrain.height
    && forall id | id in env.agents :: IsValidPos(env.terrain, env.agents[id].position)
  }

  /** The occupancy invariant: each agent's id sits exactly at its position,
      and every occupied cell names a registered agent standing there. So an
      id appears in one cell only and no cell holds two agents. */
  ghost predicate Occupancy(env: Environment)
  {
    && Shaped(env)
    && (forall id | id in env.agents ::
          env.agents[id].id == id && AtPos(env.agentLocations, env.agents[id].position) == Some(id))
    && (forall p: Position | IsValidPos(env.agentLocations, p) && AtPos(env.agentLocations, p).Some? ::
          AtPos(env.agentLocations, p).value in env.agents
          && env.agents[AtPos(env.agentLocations, p).value].position == p)
  }

  /** Every registered id lies below the id counter. */
  predicate FreshIds(env: Environment)
  {
    forall id | id in env.agents :: id < env.nextEntityId
  }

  /** `Environment::new`: all floor, no items, no agents, counter at 0. */
  function NewEnvironment(w: nat, h: nat): (env: Environment)
    ensures env.terrain.width == w && env.terrain.height == h
    ensures Occupancy(env) && FreshIds(env)
    ensures env.agents == map[] && env.nextEntityId == 0
    ensures forall p: Position | IsValidPos(env.terrain, p) ::
              AtPos(env.terrain, p) == Floor && AtPos(env.items, p) == None && AtPos(env.agentLocations, p) == None
  {
    Environment(New(w, h, Floor), New(w, h, None), New(w, h, None), map[], 0)
  }

  /** `reserve_entity_id`: hands out the counter and moves it on, so the id
      returned is one no registered agent uses. */
  function ReserveEntityId(env: Environment): (r: (Environment, EntityId))
    ensures r.0.nextEntityId == r.1 + 1 && r.1 == env.nextEntityId
    ensures r.0.(nextEntityId := env.nextEntityId) == env
    ensures FreshIds(env) ==> r.1 !in env.agents && FreshIds(r.0)
  {
    (env.(nextEntityId := env.nextEntityId + 1), env.nextEntityId)
  }

  /** `add_item`: refuses a position out of bounds, one that already holds an
      item, one an agent stands on, or a wall, in that order; otherwise only
      the item layer at `pos` changes. */
  function AddItem(env: Environment, pos: Position, item: Item): (r: Result<Environment, PlaceError>)
    requires Shaped(env)
    ensures !IsValidPos(env.terrain, pos) ==> r == Err(PlaceOutOfBounds)
    ensures IsValidPos(env.terrain, pos) ==>
              && (AtPos(env.items, pos).Some? ==> r == Err(ItemPresent))
              && (AtPos(env.items, pos).None? && AtPos(env.agentLocations, pos).Some? ==> r == Err(AgentPresent))
              && ((AtPos(env.items, pos).None? && AtPos(env.agentLocations, pos).None?
                   && AtPos(env.terrain, pos) == Wall) ==> r == Err(InsideWall))
    ensures r.Ok? <==> IsValidPos(env.terrain, pos) && AtPos(env.items, pos).None?
                       && AtPos(env.agentLocations, pos).None? && AtPos(env.terrain, pos) != Wall
    ensures r.Ok? ==>
              && r.value == env.(items := r.value.items)
              && r.value.items.width == env.items.width && r.value.items.height == env.items.height
              && AtPos(r.value.items, pos) == Some(item)
              && forall q: Position | IsValidPos(env.items, q) && q != pos :: AtPos(r.value.items, q) == AtPos(env.items, q)
  {
    if !IsValid(env.terrain, pos.x, pos.y) then Err(PlaceOutOfBounds)
    else if AtPos(env.items, pos).Some? then Err(ItemPresent)
    else if AtPos(env.agentLocations, pos).Some? then Err(AgentPresent)
    else if AtPos(env.terrain, pos) == Wall then Err(InsideWall)
    else Ok(env.(items := Update(env.items, pos, Some(item))))
  }

  /** `add_agent`: refuses a position out of bounds, an occupied one, a wall,
      a closed door, then an id already registered, in that order. An item
      under the agent is allowed (the source only prints a warning). On
      success the agent is recorded at `pos` and the counter moves past `id`. */
  function AddAgent(env: Environment, pos: Position, id: EntityId, inventory: seq<Item>): (r: Result<Environment, PlaceError>)
    requires Shaped(env)
    ensures !IsValidPos(env.terrain, pos) ==> r == Err(PlaceOutOfBounds)
    ensures IsValidPos(env.terrain, pos) ==>
              && (AtPos(env.agentLocations, pos).Some? ==> r == Err(AgentPresent))
              && (AtPos(env.agentLocations, pos).None? && AtPos(env.terrain, pos) == Wall ==> r == Err(InsideWall))
              && ((AtPos(env.agentLocations, pos).None? && AtPos(env.terrain, pos).Door?
                   && !AtPos(env.terrain, pos).open) ==> r == Err(InsideClosedDoor))
    ensures r.Ok? <==> && IsValidPos(env.terrain, pos) && AtPos(env.agentLocations, pos).None?
                       && AtPos(env.terrain, pos) != Wall
                       && !(AtPos(env.terrain, pos).Door? && !AtPos(env.terrain, pos).open)
                       && id !in env.agents
    ensures r.Err? && IsValidPos(env.terrain, pos) && AtPos(env.agentLocations, pos).None?
            && AtPos(env.terrain, pos) != Wall && !(AtPos(env.terrain, pos).Door? && !AtPos(env.terrain, pos).open)
            ==> r == Err(IdInUse(id))
    ensures r.Ok? ==>
              && r.value.terrain == env.terrain && r.value.items == env.items
              && r.value.agents == env.agents[id := AgentState(id, pos, inventory)]
              && r.value.nextEntityId == (if env.nextEntityId > id then env.nextEntityId else id + 1)
              && r.value.agentLocations.width == env.agentLocations.width
              && r.value.agentLocations.height == env.agentLocations.height
              && AtPos(r.value.agentLocations, pos) == Some(id)
              && forall q: Position | IsValidPos(env.agentLocations, q) && q != pos ::
                   AtPos(r.value.agentLocations, q) == AtPos(env.agentLocations, q)
    ensures r.Ok? && Occupancy(env) ==> Occupancy(r.value)
    ensures r.Ok? && FreshIds(env) ==> FreshIds(r.value)
  {
    if !IsValid(env.terrain, pos.x, pos.y) then Err(PlaceOutOfBounds)
    else if AtPos(env.agentLocations, pos).Some? then Err(AgentPresent)
    else if AtPos(env.terrain, pos) == Wall then Err(InsideWall)
    else if AtPos(env.terrain, pos).Door? && !AtPos(env.terrain, pos).open then Err(InsideClosedDoor)
    else if id in env.agents then Err(IdInUse(id))
    else
      var next := if env.nextEntityId > id then env.nextEntityId else id + 1;
      var env' := env.(agentLocations := Update(env.agentLocations, pos, Some(id)),
                       agents := env.agents[id := AgentState(id, pos, inventory)],
                       nextEntityId := next);
      AddAgentKeepsOccupancy(env, env', pos, id);
      Ok(env')
  }

  lemma AddAgentKeepsOccupancy(env: Environment, env': Environment, pos: Position, id: EntityId)
    requires Shaped(env) && IsValidPos(env.terrain, pos) && AtPos(env.agentLocations, pos).None?
    requires id !in env.agents
    requires env'.terrain == env.terrain && env'.items == env.items
    requires env'.agentLocations == Update(env.agentLocations, pos, Some(id))
    requires id in env'.agents && env'.agents == env.agents[id := env'.agents[id]]
    requires env'.agents[id].id == id && env'.agents[id].position == pos
    ensures Occupancy(env) ==> Occupancy(env')
  {
    if Occupancy(env) {
      forall a | a in env'.agents
        ensures AtPos(env'.agentLocations, env'.agents[a].position) == Some(a)
      {
        if a != id {
          assert AtPos(env.agentLocations, env.agents[a].position) == Some(a);
        }
      }
    }
  }

  /** The first index of the inventory holding a key of colour `k`
      (`iter().position(..)`), absent exactly when no such key is held. */
  function FirstKeyIndex(inv: seq<Item>, k: DoorKeyType): (r: Option<nat>)
    ensures r.None? <==> Key(k) !in inv
    ensures r.Some? ==> r.value < |inv| && inv[r.value] == Key(k) && Key(k) !in inv[..r.value]
  {
    if |inv| == 0 then None
    else if inv[0] == Key(k) then Some(0)
    else
      match FirstKeyIndex(inv[1..], k)
      case None => None
      case Some(i) =>
        assert inv[..i + 1] == [inv[0]] + inv[1..][..i];
        Some(i + 1)
  }

  /** `Vec::remove`: drops the element at `i`, keeping the order of the rest. */
  function RemoveAt<X>(s: seq<X>, i: nat): (r: seq<X>)
    requires i < |s|
    ensures |r| == |s| - 1
    ensures multiset(r) == multiset(s) - multiset{s[i]}
    ensures r[..i] == s[..i] && r[i..] == s[i + 1..]
  {
    assert s == s[..i] + [s[i]] + s[i + 1..];
    s[..i] + s[i + 1..]
  }

  /** The cell a move aims at: `wrapping_add_signed` on each coordinate, then
      the bounds test. A coordinate is below 2^63 and an offset lies in the
      signed 64-bit range, so a sum that would be negative wraps to at least
      2^63, which no grid contains: exact integer addition followed by the
      bounds test agrees with the source. */
  function MoveTarget<T>(g: Grid<T>, p: Position, dx: int, dy: int): (r: Option<Position>)
    ensures r.Some? <==> 0 <= p.x + dx < g.width && 0 <= p.y + dy < g.height
    ensures r.Some? ==> IsValidPos(g, r.value) && r.value.x == p.x + dx && r.value.y == p.y + dy
  {
    var tx, ty := p.x + dx, p.y + dy;
    if 0 <= tx && 0 <= ty && IsValid(g, tx, ty) then Some(Position(tx, ty)) else None
  }

  /** The in-bounds cell `action` would take agent `id` to, when it is a move
      by a registered agent. */
  function Destination(env: Environment, id: EntityId, action: Action): Option<Position>
    requires Shaped(env)
  {
    if id in env.agents && action.Move? then
      MoveTarget(env.terrain, env.agents[id].position, action.dx, action.dy)
    else
      None
  }

  /** `env'` is `env` with agent `id` moved to `t`: its origin cell cleared, `t`
      naming it and its position updated; no other cell or agent touched. */
  ghost predicate Moved(env: Environment, env': Environment, id: EntityId, t: Position)
    requires Shaped(env) && Shaped(env') && id in env.agents && id in env'.agents
    requires IsValidPos(env.terrain, t)
  {
    var cur := env.agents[id].position;
    && env'.terrain.width == env.terrain.width && env'.terrain.height == env.terrain.height
    && env'.agents[id].position == t
    && AtPos(env'.agentLocations, t) == Some(id)
    && (cur != t ==> AtPos(env'.agentLocations, cur) == None)
    && (forall q: Position | IsValidPos(env.agentLocations, q) && q != t && q != cur ::
          AtPos(env'.agentLocations, q) == AtPos(env.agentLocations, q))
  }

  /** The three-step occupancy swap every successful move ends with. */
  function Relocate(env: Environment, id: EntityId, t: Position): (r: Environment)
    requires Shaped(env) && id in env.agents && IsValidPos(env.terrain, t)
    ensures Shaped(r) && id in r.agents && Moved(env, r, id, t)
    ensures r.terrain == env.terrain && r.items == env.items && r.nextEntityId == env.nextEntityId
    ensures r.agents == env.agents[id := env.agents[id].(position := t)]
  {
    var cur := env.agents[id].position;
    var cleared := Update(env.agentLocations, cur, None);
    env.(agentLocations := Update(cleared, t, Some(id)),
         agents := env.agents[id := env.agents[id].(position := t)])
  }

  /** A change that leaves the occupancy layer, the registered ids and every
      agent's position alone keeps the occupancy invariant. */
  lemma SameOccupancy(env: Environment, env': Environment)
    requires Occupancy(env) && Shaped(env')
    requires env'.agentLocations == env.agentLocations && env'.agents.Keys == env.agents.Keys
    requires forall a | a in env.agents :: env'.agents[a].id == env.agents[a].id
                                          && env'.agents[a].position == env.agents[a].position
    ensures Occupancy(env')
  {
  }

  /** Moving agent `id` onto a cell that was free, or its own, keeps the
      occupancy invariant, whatever else the move changed. */
  lemma MovedKeepsOccupancy(env: Environment, env': Environment, id: EntityId, t: Position)
    requires Occupancy(env) && Shaped(env') && id in env.agents && id in env'.agents
    requires IsValidPos(env.terrain, t) && Moved(env, env', id, t)
    requires AtPos(env.agentLocations, t).None? || AtPos(env.agentLocations, t) == Some(id)
    requires env'.agents.Keys == env.agents.Keys && env'.agents[id].id == env.agents[id].id
    requires forall a | a in env.agents && a != id :: env'.agents[a] == env.agents[a]
    ensures Occupancy(env')
  {
    var cur := env.agents[id].position;
    forall a | a in env'.agents
      ensures env'.agents[a].id == a && AtPos(env'.agentLocations, env'.agents[a].position) == Some(a)
    {
      if a != id {
        var pa := env.agents[a].position;
        assert AtPos(env.agentLocations, pa) == Some(a);
        assert pa != t && pa != cur;
      }
    }
    forall p: Position | IsValidPos(env'.agentLocations, p) && AtPos(env'.agentLocations, p).Some?
      ensures AtPos(env'.agentLocations, p).value in env'.agents
      ensures env'.agents[AtPos(env'.agentLocations, p).value].position == p
    {
      if p != t && p != cur {
        assert AtPos(env'.agentLocations, p) == AtPos(env.agentLocations, p);
      }
    }
  }

  /** Whether stepping onto `t` collects the item there: a chip always, a key
      only when the mover holds no key of that colour. */
  predicate Collects(env: Environment, id: EntityId, t: Position)
    requires Shaped(env) && id in env.agents && IsValidPos(env.terrain, t)
  {
    match AtPos(env.items, t)
    case Some(Chip) => true
    case Some(Key(k)) => Key(k) !in env.agents[id].inventory
    case _ => false
  }

  /** Step 2 of a move onto a non-goal cell: a collected item leaves the item
      layer and is appended to the mover's inventory; nothing else changes. */
  function PickUp(env: Environment, id: EntityId, t: Position): (r: Environment)
    requires Shaped(env) && id in env.agents && IsValidPos(env.terrain, t)
    ensures Shaped(r) && id in r.agents
    ensures r.terrain == env.terrain && r.agentLocations == env.agentLocations
    ensures r.nextEntityId == env.nextEntityId && r.agents.Keys == env.agents.Keys
    ensures forall a | a in env.agents && a != id :: r.agents[a] == env.agents[a]
    ensures r.agents[id].id == env.agents[id].id && r.agents[id].position == env.agents[id].position
    ensures Collects(env, id, t) ==>
              && r.agents[id].inventory == env.agents[id].inventory + [AtPos(env.items, t).value]
              && r.items == Update(env.items, t, None)
    ensures !Collects(env, id, t) ==> r == env
  {
    var st := env.agents[id];
    match AtPos(env.items, t)
    case Some(Chip) =>
      env.(agents := env.agents[id := st.(inventory := st.inventory + [Chip])],
           items := Update(env.items, t, None))
    case Some(Key(k)) =>
      if Key(k) in st.inventory then env
      else
        env.(agents := env.agents[id := st.(inventory := st.inventory + [Key(k)])],
             items := Update(env.items, t, None))
    case _ => env
  }

  /** The door at `t` with its `open` flag set and its colour kept. */
  function Unlock(env: Environment, t: Position): (r: Environment)
    requires Shaped(env) && IsValidPos(env.terrain, t) && AtPos(env.terrain, t).Door?
    ensures Shaped(r) && r == env.(terrain := r.terrain)
    ensures r.terrain.width == env.terrain.width && r.terrain.height == env.terrain.height
    ensures AtPos(r.terrain, t) == Door(true, AtPos(env.terrain, t).doorType)
    ensures forall q: Position | IsValidPos(env.terrain, q) && q != t :: AtPos(r.terrain, q) == AtPos(env.terrain, q)
  {
    env.(terrain := Update(env.terrain, t, Door(true, AtPos(env.terrain, t).doorType)))
  }

  /** Step 3 onto a closed door nobody stands on. An unkeyed door opens with
      no inventory change; a keyed door opens only if the mover holds a key of
      its colour, and then exactly one such key (the first) is consumed;
      without it the move fails and the door stays closed. */
  function OpenDoor(env: Environment, id: EntityId, t: Position): (r: (Environment, ActionResult))
    requires Shaped(env) && id in env.agents && IsValidPos(env.terrain, t)
    requires AtPos(env.terrain, t).Door? && !AtPos(env.terrain, t).open && AtPos(env.agentLocations, t).None?
    ensures Shaped(r.0) && id in r.0.agents && r.0.agents.Keys == env.agents.Keys
    ensures r.0.items == env.items && r.0.nextEntityId == env.nextEntityId && r.1 != Win
    ensures forall a | a in env.agents && a != id :: r.0.agents[a] == env.agents[a]
    ensures r.0.agents[id].id == env.agents[id].id
    ensures r.1.Failure? ==> r.0 == env
    ensures AtPos(env.terrain, t).doorType.None? ==>
              r.1 == Success && r.0.agents[id].inventory == env.agents[id].inventory
    ensures AtPos(env.terrain, t).doorType.Some? ==>
              var k := AtPos(env.terrain, t).doorType.value;
              && (r.1 == Success <==> Key(k) in env.agents[id].inventory)
              && (r.1 != Success ==> r.1 == Failure(MissingKey(k)))
              && (r.1 == Success ==>
                    && multiset(r.0.agents[id].inventory) == multiset(env.agents[id].inventory) - multiset{Key(k)}
                    && FirstKeyIndex(env.agents[id].inventory, k).Some?
                    && r.0.agents[id].inventory == RemoveAt(env.agents[id].inventory, FirstKeyIndex(env.agents[id].inventory, k).value))
    ensures r.1 == Success ==>
              && Moved(env, r.0, id, t)
              && AtPos(r.0.terrain, t) == Door(true, AtPos(env.terrain, t).doorType)
              && forall q: Position | IsValidPos(env.terrain, q) && q != t :: AtPos(r.0.terrain, q) == AtPos(env.terrain, q)
  {
    var st := env.agents[id];
    match AtPos(env.terrain, t).doorType
    case None => (PassDoor(env, id, t, st.inventory), Success)
    case Some(k) =>
      match FirstKeyIndex(st.inventory, k)
      case None => (env, Failure(MissingKey(k)))
      case Some(i) => (PassDoor(env, id, t, RemoveAt(st.inventory, i)), Success)
  }

  /** A successful pass through the closed door at `t`: the door is opened,
      the mover is left holding `inv`, and the mover is moved onto `t`. */
  function PassDoor(env: Environment, id: EntityId, t: Position, inv: seq<Item>): (r: Environment)
    requires Shaped(env) && id in env.agents && IsValidPos(env.terrain, t) && AtPos(env.terrain, t).Door?
    ensures Shaped(r) && id in r.agents && r.agents.Keys == env.agents.Keys
    ensures r.items == env.items && r.nextEntityId == env.nextEntityId
    ensures forall a | a in env.agents && a != id :: r.agents[a] == env.agents[a]
    ensures r.agents[id].id == env.agents[id].id && r.agents[id].inventory == inv
    ensures Moved(env, r, id, t)
    ensures AtPos(r.terrain, t) == Door(true, AtPos(env.terrain, t).doorType)
    ensures forall q: Position | IsValidPos(env.terrain, q) && q != t :: AtPos(r.terrain, q) == AtPos(env.terrain, q)
  {
    var u := Unlock(env, t);
    var st := env.agents[id];
    Relocate(u.(agents := u.agents[id := st.(inventory := inv)]), id, t)
  }

  /** Step 3 of a move: the terrain at `t` decides. A wall refuses; any other
      cell another agent (or the mover itself) stands on refuses; floor and
      open doors admit with nothing else changed; closed doors go to `OpenDoor`. */
  function EnterCell(env: Environment, id: EntityId, t: Position): (r: (Environment, ActionResult))
    requires Shaped(env) && id in env.agents && IsValidPos(env.terrain, t)
    ensures AtPos(env.terrain, t) == Wall ==> r == (env, Failure(IntoWall))
    ensures AtPos(env.terrain, t) != Wall && AtPos(env.agentLocations, t).Some? ==> r == (env, Failure(Occupied))
    ensures AtPos(env.agentLocations, t).None? && (AtPos(env.terrain, t) == Floor || (AtPos(env.terrain, t).Door? && AtPos(env.terrain, t).open)) ==>
              r == (Relocate(env, id, t), Success)
    ensures AtPos(env.agentLocations, t).None? && AtPos(env.terrain, t).Door? && !AtPos(env.terrain, t).open ==>
              r == OpenDoor(env, id, t)
  {
    var cell := AtPos(env.terrain, t);
    if cell == Wall then (env, Failure(IntoWall))
    else if AtPos(env.agentLocations, t).Some? then (env, Failure(Occupied))
    else if cell.Door? && !cell.open then OpenDoor(env, id, t)
    else (Relocate(env, id, t), Success)
  }

  /** Steps 2 and 3 of a move by agent `id` to the in-bounds cell `t`. A goal
      wins at once, skipping terrain and occupancy. Otherwise the item is
      collected first and stays collected even if the terrain then refuses. */
  function ResolveMove(env: Environment, id: EntityId, t: Position): (r: (Environment, ActionResult))
    requires Shaped(env) && id in env.agents && IsValidPos(env.terrain, t)
    ensures Shaped(r.0) && id in r.0.agents && r.0.agents.Keys == env.agents.Keys
    ensures r.0.nextEntityId == env.nextEntityId && r.0.agents[id].id == env.agents[id].id
    ensures forall a | a in env.agents && a != id :: r.0.agents[a] == env.agents[a]
    ensures r.1 == Win <==> AtPos(env.items, t) == Some(Goal)
    ensures r.1 == Win ==> r.0 == Relocate(env, id, t)
  {
    if AtPos(env.items, t) == Some(Goal) then
      (Relocate(env, id, t), Win)
    else
      EnterCell(PickUp(env, id, t), id, t)
  }

  /** How a move changes occupancy: a failed move leaves the occupancy layer
      and the mover's position alone; any other outcome moves the mover to
      `t`, which (unless it won) was free. A failure other than a wall means
      `t` was taken or a key was missing. */
  lemma MoveOccupancy(env: Environment, id: EntityId, t: Position)
    requires Shaped(env) && id in env.agents && IsValidPos(env.terrain, t)
    ensures var r := ResolveMove(env, id, t);
            && (r.1.Failure? ==>
                  r.0.agentLocations == env.agentLocations && r.0.agents[id].position == env.agents[id].position)
            && (AtPos(env.terrain, t) == Wall && AtPos(env.items, t) != Some(Goal) ==> r.1 == Failure(IntoWall))
            && (r.1.Failure? && AtPos(env.terrain, t) != Wall ==>
                  AtPos(env.agentLocations, t).Some? || r.1.reason.MissingKey?)
            && (!r.1.Failure? ==> Moved(env, r.0, id, t))
            && (r.1 == Success ==> AtPos(env.agentLocations, t).None?)
  {
    if AtPos(env.items, t) != Some(Goal) {
      var picked := PickUp(env, id, t);
      var r := EnterCell(picked, id, t);
      var cell := AtPos(env.terrain, t);
      if cell != Wall && AtPos(env.agentLocations, t).None? && cell.Door? && !cell.open {
        assert r == OpenDoor(picked, id, t);
      }
    }
  }

  /** An item collected on the way stays collected whatever the terrain then
      decides: the cell is emptied and a chip always adds one chip to the
      inventory; an item not collected stays on the ground. A refused move
      leaves exactly the world after the pickup, so a collected chip or key
      sits at the end of the mover's inventory. */
  lemma MovePickupPersists(env: Environment, id: EntityId, t: Position)
    requires Shaped(env) && id in env.agents && IsValidPos(env.terrain, t)
    ensures var r := ResolveMove(env, id, t);
            && (Collects(env, id, t) ==> AtPos(r.0.items, t) == None)
            && (!Collects(env, id, t) ==> r.0.items == env.items)
            && (AtPos(env.items, t) == Some(Chip) ==>
                  multiset(r.0.agents[id].inventory)[Chip] == multiset(env.agents[id].inventory)[Chip] + 1)
            && (r.1.Failure? ==> r.0 == PickUp(env, id, t))
            && (r.1.Failure? && Collects(env, id, t) ==>
                  r.0.agents[id].inventory == env.agents[id].inventory + [AtPos(env.items, t).value])
  {
    RefusalKeepsPickup(env, id, t);
    if AtPos(env.items, t) == Some(Chip) {
      var picked := PickUp(env, id, t);
      var inv := env.agents[id].inventory;
      assert multiset(picked.agents[id].inventory)[Chip] == multiset(inv)[Chip] + 1 by {
        assert picked.agents[id].inventory == inv + [Chip];
      }
      var r := EnterCell(picked, id, t);
      var cell := AtPos(env.terrain, t);
      if cell != Wall && AtPos(env.agentLocations, t).None? && cell.Door? && !cell.open && cell.doorType.Some? {
        var k := cell.doorType.value;
        assert r == OpenDoor(picked, id, t);
        if r.1 == Success {
          assert Key(k) != Chip;
          assert multiset(r.0.agents[id].inventory)[Chip] == multiset(picked.agents[id].inventory)[Chip];
        }
      }
    }
  }

  /** Every refusal of a move happens after the pickup and changes nothing
      more. */
  lemma RefusalKeepsPickup(env: Environment, id: EntityId, t: Position)
    requires Shaped(env) && id in env.agents && IsValidPos(env.terrain, t)
    ensures ResolveMove(env, id, t).1.Failure? ==> ResolveMove(env, id, t).0 == PickUp(env, id, t)
  {
    var cell := AtPos(env.terrain, t);
    if AtPos(env.items, t) != Some(Goal) && cell != Wall && AtPos(env.agentLocations, t).None? && cell.Door? && !cell.open {
      assert ResolveMove(env, id, t) == OpenDoor(PickUp(env, id, t), id, t);
    }
  }

  /** `process_action`: the sole mutator of the world. An unknown agent, a
      wait and an out-of-bounds move change nothing; any other move is
      resolved by `ResolveMove` at its destination. */
  function ProcessAction(env: Environment, id: EntityId, action: Action): (r: (Environment, ActionResult))
    requires Shaped(env)
    ensures Shaped(r.0) && r.0.agents.Keys == env.agents.Keys && r.0.nextEntityId == env.nextEntityId
    ensures forall a | a in env.agents && a != id :: r.0.agents[a] == env.agents[a]
    ensures id !in env.agents ==> r == (env, Failure(AgentNotFound))
    ensures id in env.agents && action.Wait? ==> r == (env, Success)
    ensures id in env.agents && action.Move? && Destination(env, id, action).None? ==>
              r == (env, Failure(TargetOutOfBounds))
    ensures Destination(env, id, action).Some? ==> r == ResolveMove(env, id, Destination(env, id, action).value)
    ensures r.1 == Win ==> Destination(env, id, action).Some?
  {
    if id !in env.agents then (env, Failure(AgentNotFound))
    else
      match action
      case Wait => (env, Success)
      case Move(dx, dy) =>
        match MoveTarget(env.terrain, env.agents[id].position, dx, dy)
        case None => (env, Failure(TargetOutOfBounds))
        case Some(t) => ResolveMove(env, id, t)
  }

  /** Every action except a win onto a cell another agent holds keeps the
      occupancy invariant. */
  lemma ProcessActionKeepsOccupancy(env: Environment, id: EntityId, action: Action)
    requires Occupancy(env)
    requires Destination(env, id, action).Some? && AtPos(env.items, Destination(env, id, action).value) == Some(Goal) ==>
               AtPos(env.agentLocations, Destination(env, id, action).value) in {None, Some(id)}
    ensures Occupancy(ProcessAction(env, id, action).0)
  {
    match Destination(env, id, action)
    case None =>
    case Some(t) => ResolveMoveKeepsOccupancy(env, id, t);
  }

  /** A move resolved at `t` keeps the occupancy invariant unless it wins onto
      a cell another agent holds. */
  lemma ResolveMoveKeepsOccupancy(env: Environment, id: EntityId, t: Position)
    requires Occupancy(env) && id in env.agents && IsValidPos(env.terrain, t)
    requires AtPos(env.items, t) == Some(Goal) ==> AtPos(env.agentLocations, t) in {None, Some(id)}
    ensures Occupancy(ResolveMove(env, id, t).0)
  {
    var r := ResolveMove(env, id, t);
    MoveOccupancy(env, id, t);
    OutcomeKeepsOccupancy(env, r.0, r.1, id, t);
  }

  /** The case split behind ResolveMoveKeepsOccupancy, from what a move's
      outcome says about the world it leaves: a failure leaves occupancy
      alone, a success or a win moves only the mover onto a free (or its own)
      cell. */
  lemma OutcomeKeepsOccupancy(env: Environment, env': Environment, res: ActionResult, id: EntityId, t: Position)
    requires Occupancy(env) && Shaped(env') && id in env.agents && IsValidPos(env.terrain, t)
    requires env'.agents.Keys == env.agents.Keys && env'.agents[id].id == env.agents[id].id
    requires forall a | a in env.agents && a != id :: env'.agents[a] == env.agents[a]
    requires res.Failure? ==>
               env'.agentLocations == env.agentLocations && env'.agents[id].position == env.agents[id].position
    requires !res.Failure? ==> Moved(env, env', id, t)
    requires res == Success ==> AtPos(env.agentLocations, t).None?
    requires res == Win ==> AtPos(env.agentLocations, t) in {None, Some(id)}
    ensures Occupancy(env')
  {
    if res.Failure? {
      SameOccupancy(env, env');
    } else {
      MovedKeepsOccupancy(env, env', id, t);
    }
  }

  /** The goal branch skips the occupancy check: an agent winning onto a goal
      cell another agent stands on leaves that other agent's id off the
      occupancy layer while its position still names the goal cell. */
  lemma WinOntoOccupiedGoalBreaksOccupancy(env: Environment, id: EntityId, action: Action)
    requires Occupancy(env) && Destination(env, id, action).Some?
    requires AtPos(env.items, Destination(env, id, action).value) == Some(Goal)
    requires AtPos(env.agentLocations, Destination(env, id, action).value) !in {None, Some(id)}
    ensures ProcessAction(env, id, action).1 == Win
    ensures !Occupancy(ProcessAction(env, id, action).0)
  {
    var t := Destination(env, id, action).value;
    var other := AtPos(env.agentLocations, t).value;
    var r := ProcessAction(env, id, action).0;
    assert other in env.agents && env.agents[other].position == t;
    assert r.agents[other].position == t && AtPos(r.agentLocations, t) == Some(id);
  }

  /** `get_door_locations`: the closed doors whose colour requirement equals
      `filter` (`None` selects the unkeyed ones), in row-major order. */
  function GetDoorLocations(env: Environment, filter: Option<DoorKeyType>): (r: seq<Position>)
    ensures forall p: Position :: p in r <==> IsValidPos(env.terrain, p) && AtPos(env.terrain, p) == Door(false, filter)
    ensures forall k, l | 0 <= k < l < |r| :: Rank(env.terrain, r[k]) < Rank(env.terrain, r[l])
  {
    Positions(env.terrain, (c: CellType) => c == Door(false, filter))
  }

  /** `get_key_location`: the first cell in row-major order holding a key of
      colour `k`, absent when no such key lies on the ground. */
  function GetKeyLocation(env: Environment, k: DoorKeyType): (r: Option<Position>)
    ensures r.None? <==> forall p: Position | IsValidPos(env.items, p) :: AtPos(env.items, p) != Some(Key(k))
    ensures r.Some? ==> IsValidPos(env.items, r.value) && AtPos(env.items, r.value) == Some(Key(k))
    ensures r.Some? ==> forall p: Position | IsValidPos(env.items, p) && Rank(env.items, p) < Rank(env.items, r.value) ::
                          AtPos(env.items, p) != Some(Key(k))
  {
    var found := Positions(env.items, (c: Option<Item>) => c == Some(Key(k)));
    if |found| == 0 then None
    else
      assert forall p: Position | IsValidPos(env.items, p) && AtPos(env.items, p) == Some(Key(k)) ::
               Rank(env.items, found[0]) <= Rank(env.items, p) by {
        forall p: Position | IsValidPos(env.items, p) && AtPos(env.items, p) == Some(Key(k))
          ensures Rank(env.items, found[0]) <= Rank(env.items, p)
        {
          assert p in found;
        }
      }
      Some(found[0])
  }

  /** `get_corresponding_key_location`: for a cell holding a door with a
      colour (open or closed), where the first key of that colour lies;
      nothing for any other cell. */
  function GetCorrespondingKeyLocation(env: Environment, door: Position): (r: Option<Position>)
    ensures !(IsValidPos(env.terrain, door) && AtPos(env.terrain, door).Door? && AtPos(env.terrain, door).doorType.Some?)
            ==> r.None?
    ensures IsValidPos(env.terrain, door) && AtPos(env.terrain, door).Door? && AtPos(env.terrain, door).doorType.Some?
            ==> r == GetKeyLocation(env, AtPos(env.terrain, door).doorType.value)
  {
    var cell: Option<CellType> := Get(env.terrain, door.x, door.y);
    match cell
    case Some(Door(_, Some(k))) => GetKeyLocation(env, k)
    case _ => None
  }

  /** The snapshot handed to agent `id` when it decides. */
  function ViewOf(env: Environment, id: EntityId): (v: View)
    requires id in env.agents
    ensures v.agentState == env.agents[id] && v.location == env.agents[id].position
    ensures v.terrain == env.terrain && v.items == env.items && v.agentLocations == env.agentLocations
  {
    var st := env.agents[id];
    View(st, st.position, env.terrain, env.items, env.agentLocations)
  }

  /** The resolution half of `process_turn`: the (agent, action) pairs are
      applied one after another, each seeing the world the previous ones left;
      the first win ends the turn, failures are passed over. */
  function RunSteps(env: Environment, steps: seq<(EntityId, Action)>): (r: (Environment, ActionResult))
    requires Shaped(env)
    ensures Shaped(r.0) && r.0.agents.Keys == env.agents.Keys
    ensures !r.1.Failure?
    decreases |steps|
  {
    if |steps| == 0 then (env, Success)
    else
      var (env1, res) := ProcessAction(env, steps[0].0, steps[0].1);
      if res == Win then (env1, Win) else RunSteps(env1, steps[1..])
  }

  /** Replaying a turn in two pieces: the second piece runs in the world the
      first left, unless the first already won. */
  lemma {:induction false} RunStepsAppend(env: Environment, a: seq<(EntityId, Action)>, b: seq<(EntityId, Action)>)
    requires Shaped(env)
    ensures var (env1, res) := RunSteps(env, a);
            RunSteps(env, a + b) == if res == Win then (env1, res) else RunSteps(env1, b)
    decreases |a|
  {
    if |a| == 0 {
      assert a + b == b;
    } else {
      var (env1, res) := ProcessAction(env, a[0].0, a[0].1);
      if res != Win {
        assert (a + b)[1..] == a[1..] + b;
        RunStepsAppend(env1, a[1..], b);
      }
    }
  }

  /** The steps of a turn up to and including the first win, or all of them. */
  function Resolved(env: Environment, steps: seq<(EntityId, Action)>): (n: nat)
    requires Shaped(env)
    ensures n <= |steps|
    decreases |steps|
  {
    if |steps| == 0 then 0
    else
      var (env1, res) := ProcessAction(env, steps[0].0, steps[0].1);
      if res == Win then 1 else 1 + Resolved(env1, steps[1..])
  }

  /** The steps after the first win never act: a turn equals its resolved
      prefix, and a turn that stops short of its last step has been won. */
  lemma {:induction false} RunStepsStopsAtWin(env: Environment, steps: seq<(EntityId, Action)>)
    requires Shaped(env)
    ensures var n := Resolved(env, steps);
            && RunSteps(env, steps) == RunSteps(env, steps[..n])
            && (n < |steps| ==> RunSteps(env, steps).1 == Win)
    decreases |steps|
  {
    if |steps| > 0 {
      var (env1, res) := ProcessAction(env, steps[0].0, steps[0].1);
      var n := Resolved(env, steps);
      if res == Win {
        assert steps[..n] == [steps[0]];
      } else {
        RunStepsStopsAtWin(env1, steps[1..]);
        var m := Resolved(env1, steps[1..]);
        assert steps[..n][1..] == steps[1..][..m];
      }
    }
  }

  /** A turn's outcome is a win exactly when its last resolved step wins in
      the world the steps before it left, and those steps did not win. */
  lemma {:induction false} RunStepsWinsAtLast(env: Environment, steps: seq<(EntityId, Action)>)
    requires Shaped(env)
    ensures var n := Resolved(env, steps);
            RunSteps(env, steps).1 == Win <==>
              n > 0 && RunSteps(env, steps[..n - 1]).1 != Win
                    && ProcessAction(RunSteps(env, steps[..n - 1]).0, steps[n - 1].0, steps[n - 1].1).1 == Win
    decreases |steps|
  {
    if |steps| > 0 {
      var (env1, res) := ProcessAction(env, steps[0].0, steps[0].1);
      var n := Resolved(env, steps);
      if res == Win {
        assert steps[..n - 1] == [];
      } else {
        RunStepsWinsAtLast(env1, steps[1..]);
        var m := Resolved(env1, steps[1..]);
        assert n == m + 1;
        if m > 0 {
          assert steps[..n - 1][0] == steps[0] && steps[..n - 1][1..] == steps[1..][..m - 1];
          assert RunSteps(env, steps[..n - 1]) == RunSteps(env1, steps[1..][..m - 1]);
          assert steps[n - 1] == steps[1..][m - 1];
        }
      }
    }
  }

  /** A whole turn keeps the occupancy invariant, provided no step is a win
      onto a goal cell held by another agent. */
  lemma {:induction false} RunStepsKeepsOccupancy(env: Environment, steps: seq<(EntityId, Action)>)
    requires Occupancy(env)
    requires NoWinOntoOther(env, steps)
    ensures Occupancy(RunSteps(env, steps).0)
    decreases |steps|
  {
    if |steps| > 0 {
      ProcessActionKeepsOccupancy(env, steps[0].0, steps[0].1);
      var (env1, res) := ProcessAction(env, steps[0].0, steps[0].1);
      if res != Win {
        RunStepsKeepsOccupancy(env1, steps[1..]);
      }
    }
  }

  /** No step of the turn wins onto a goal cell another agent stands on. */
  predicate NoWinOntoOther(env: Environment, steps: seq<(EntityId, Action)>)
    requires Shaped(env)
    decreases |steps|
  {
    |steps| > 0 ==>
      var (id, action) := steps[0];
      && (Destination(env, id, action).Some? && AtPos(env.items, Destination(env, id, action).value) == Some(Goal) ==>
            AtPos(env.agentLocations, Destination(env, id, action).value) in {None, Some(id)})
      && (ProcessAction(env, id, action).1 != Win ==> NoWinOntoOther(ProcessAction(env, id, action).0, steps[1..]))
  }
}
