# agent_world core in Dafny

A model of the simulation core of `agent_world`: a grid world of floor, walls
and coloured doors, with chips, keys and goal cells on an item layer and
agents on an occupancy layer. Agents act one after another within a turn.
The world engine resolves each action: it bounds-checks the target, picks up
items, opens doors (a coloured door uses up a matching key) and moves the
agent. A move onto a goal ends the game with a win. The planning agent keeps a
queue of waypoints. When the queue is empty it runs A* to the nearest chip,
or to a goal once no chip is left. Failing that it heads for the nearest key
of a colour it does not hold.

The project has six modules, one per concern of the source:

- `Wrappers` (wrappers.dfy): `Option` and `Result`.
- `Types` (types.dfy): `Position`, `DoorKeyType`, `Item` and `EntityId`, from lib.rs.
- `Grids` (grid.dfy): the row-major `Grid<T>` of map.rs. It is a subset type
  whose storage always holds `width * height` cells.
- `World` (environment.dfy): the environment, its placement operations,
  `process_action`, the door and key queries, and the resolution half of
  `process_turn`.
- `MapLoader` (map_loader.dfy): `load_environment_from_string`, its lexing
  (`trim`, `lines`, `split_whitespace`) and the map legend.
- `Planning` (agent.rs): the planning agent, A* with its search invariants,
  target selection, `get_action`, and the turn loop driven by planning agents.

Every operation is a pure function or a method over immutable values. An
operation that mutates in the source returns the new world. The placement
operations (`AddItem`, `AddAgent`, `Set`) and the loader return an error value
and no new world when they refuse, so a refusal there changes nothing. A
refused move is different: the engine collects the item on the target cell
before it looks at the terrain and the occupancy, so a move that then fails
still leaves the item collected. Error messages become the `FailureReason`,
`PlaceError`, `GridError` and `LoadError` datatypes.

Two orders that the source takes from `HashMap` iteration are parameters:

- `order`: the order in which a turn visits agent ids;
- `keyOrder`: the order in which key colours are tried.

The binary heap's choice among entries of equal priority is left open: the
search pops any entry of least priority.

## Model

| member | source | states |
|---|---|---|
| Grids.ValidIsStored | agent_world_core/src/map.rs:124-126 | a cell is valid exactly when its column is inside the width and its row-major slot lies inside the storage |
| Grids.CoordsToIndex | agent_world_core/src/map.rs:99-106 | an index exists exactly for in-bounds coordinates; it lies inside the storage and is the row-major slot, with quotient y and remainder x by the width |
| Grids.IndexToCoords | agent_world_core/src/map.rs:111-120 | coordinates exist exactly for indices inside the storage; they are in bounds and map back to the same index |
| Grids.CoordsIndexRoundTrip | agent_world_core/src/map.rs:100-120 | every in-bounds cell survives the trip to its index and back |
| Grids.IndexReadsSlot | agent_world_core/src/map.rs:207-255 | indexing by coordinates or by a position reads the storage slot whose coordinates are that cell |
| Grids.Get | agent_world_core/src/map.rs:131-138 | absent exactly out of bounds; otherwise the value the unchecked index yields |
| Grids.Update | agent_world_core/src/map.rs:258-271 | the written cell holds the new value; the size and every other cell are unchanged |
| Grids.Set | agent_world_core/src/map.rs:156-165 | out of bounds gives `OutOfBounds` carrying the coordinates and the grid size; in bounds only the named cell changes |
| Grids.New | agent_world_core/src/map.rs:41-51 | the grid has the requested size and every cell holds the default |
| Grids.FromGenerator | agent_world_core/src/map.rs:66-82 | filling rows top to bottom, each left to right, leaves `f(x, y)` in cell (x, y) |
| Grids.Enumerate | agent_world_core/src/map.rs:178-183 | one entry per stored cell, in storage order; each entry carries the coordinates whose index is its position and the value stored there |
| Grids.Positions | agent_world_core/src/map.rs:178-183 | the cells satisfying a filter are listed exactly once each, in row-major order |
| World.NewEnvironment | agent_world_core/src/environment.rs:69-78 | the requested size, all floor, no items, no agents and the counter at 0; the occupancy and fresh-id invariants hold |
| World.ReserveEntityId | agent_world_core/src/environment.rs:81-85 | returns the counter and advances it by one, changing nothing else; when ids are fresh, the id returned belongs to no agent and ids stay fresh |
| World.AddItem | agent_world_core/src/environment.rs:88-109 | the refusals come in the source's order (out of bounds, item present, agent present, wall); it succeeds exactly when none applies, and then only the item at that cell changes |
| World.AddAgent | agent_world_core/src/environment.rs:112-168 | refusals in the source's order (out of bounds, occupied, wall, closed door, id in use); on success the agent is registered at its cell, the counter becomes at least id + 1, and the occupancy and fresh-id invariants are kept |
| World.AddAgentKeepsOccupancy | agent_world_core/src/environment.rs:155-165 | registering an agent on a free cell keeps each id at exactly its position |
| World.FirstKeyIndex | agent_world_core/src/environment.rs:317-321 | absent exactly when no key of that colour is held; otherwise the first inventory slot holding one |
| World.RemoveAt | agent_world_core/src/environment.rs:325 | removes exactly one occurrence of the element at the index and keeps the order of the rest |
| World.MoveTarget | agent_world_core/src/environment.rs:216-224 | a target exists exactly when the offset position lies inside the grid; it is that position |
| World.Relocate | agent_world_core/src/environment.rs:356-358 | the mover's old cell is cleared, the target holds its id, and its position is the target; terrain, items and other agents are untouched |
| World.MovedKeepsOccupancy | agent_world_core/src/environment.rs:356-358 | moving an agent onto a free cell, or its own, keeps each id at exactly its position |
| World.PickUp | agent_world_core/src/environment.rs:231-260 | a chip, or a key of a colour not yet held, is appended to the inventory and leaves the item layer; anything else changes nothing |
| World.Unlock | agent_world_core/src/environment.rs:292-297 | the door at the target opens and keeps its colour; no other cell changes |
| World.PassDoor | agent_world_core/src/environment.rs:323-339 | the door opens, the agent moves onto it with the given inventory, and items and other agents are untouched |
| World.OpenDoor | agent_world_core/src/environment.rs:281-348 | an unkeyed door always lets the agent through; a keyed door does so exactly when a key of its colour is held, and then removes the first such key from the inventory, keeping the order of the rest; otherwise it fails with `MissingKey` and changes nothing |
| World.EnterCell | agent_world_core/src/environment.rs:263-361 | a wall fails; an occupied cell fails; free floor or an open door is entered; a free closed door goes through the door logic |
| World.ResolveMove | agent_world_core/src/environment.rs:230-365 | the move wins exactly when the target holds a goal, and a win relocates the mover; other agents and the counter are untouched |
| World.MoveOccupancy | agent_world_core/src/environment.rs:262-365 | a failed move leaves occupancy and the mover's position alone; a non-goal wall always fails; a success needs a free target; every non-failure moves the agent there |
| World.MovePickupPersists | agent_world_core/src/environment.rs:231-266 | an item collected in the pickup step stays collected, even when the terrain then refuses the move; stepping on a chip adds exactly one chip; a refused move leaves exactly the world after the pickup, with the collected item at the end of the inventory |
| World.RefusalKeepsPickup | agent_world_core/src/environment.rs:263-348 | every refusal of a move comes after the pickup and undoes nothing of it |
| World.ProcessAction | agent_world_core/src/environment.rs:206-368 | an unknown agent fails with `AgentNotFound`; a wait succeeds unchanged; an out-of-bounds move fails with `TargetOutOfBounds` unchanged; an in-bounds move is resolved at its target; only a move can win; other agents never change |
| World.ResolveMoveKeepsOccupancy | agent_world_core/src/environment.rs:230-365 | resolving a move keeps each id at exactly its position, unless the move wins onto a goal cell another agent holds |
| World.ProcessActionKeepsOccupancy | agent_world_core/src/environment.rs:206-368 | every action keeps the occupancy invariant, except a win onto a goal cell another agent holds |
| World.WinOntoOccupiedGoalBreaksOccupancy | agent_world_core/src/environment.rs:234-240 | the goal branch skips the occupancy check: winning onto a goal that another agent stands on wins and breaks the occupancy invariant |
| World.GetDoorLocations | agent_world_core/src/environment.rs:385-396 | exactly the closed doors whose colour requirement equals the filter, in row-major order |
| World.GetKeyLocation | agent_world_core/src/environment.rs:399-408 | absent exactly when no key of that colour lies on the ground; otherwise the first such cell in row-major order |
| World.GetCorrespondingKeyLocation | agent_world_core/src/environment.rs:411-424 | absent unless the cell is a door with a colour; then the first key of that colour on the ground |
| World.ViewOf | agent_world_core/src/environment.rs:180-186 | the view carries the agent's own state, its current position and the world's three layers |
| World.RunSteps | agent_world_core/src/environment.rs:174-202 | replaying a turn keeps the world well shaped and the registered ids; a turn's outcome is never a failure |
| World.RunStepsAppend | agent_world_core/src/environment.rs:174-202 | a turn split in two runs its second part in the world the first part left, unless the first part won |
| World.RunStepsStopsAtWin | agent_world_core/src/environment.rs:190-194 | no step after the first win acts; a turn that stops before its last step has been won |
| World.RunStepsWinsAtLast | agent_world_core/src/environment.rs:190-202 | a turn is won exactly when its last resolved step wins in the world the earlier steps left, and those steps did not win |
| World.RunStepsKeepsOccupancy | agent_world_core/src/environment.rs:171-203 | a whole turn keeps the occupancy invariant when no step wins onto a goal another agent holds |
| MapLoader.SkipBlanks | agent_world_core/src/environment.rs:430 | the place where trimming starts: only whitespace before it from the given place, and a non-blank at it unless it is the end |
| MapLoader.BackBlanks | agent_world_core/src/environment.rs:430 | the place where trimming ends: only whitespace from it to the given end, and a non-blank just before it unless nothing is left |
| MapLoader.Trim | agent_world_core/src/environment.rs:430 | the result is no longer than the input; it is empty exactly for an all-whitespace input, and otherwise starts and ends with a non-blank |
| MapLoader.TrimmedParts | agent_world_core/src/environment.rs:430 | every text is its trimmed form with blank text put back on both sides, so the trimmed form is the slice of the input between a blank prefix and a blank suffix |
| MapLoader.SplitWhitespace | agent_world_core/src/environment.rs:440 | each word is non-empty and blank-free, the words together are exactly the input's non-blank characters in order, and there is one word per maximal run of non-blanks |
| MapLoader.SplitJoinRoundTrip | agent_world_core/src/environment.rs:440 | words joined with blank gaps, non-empty between words, split back into exactly those words |
| MapLoader.SplitTrim | agent_world_core/src/environment.rs:440 | trimming a line before splitting it changes no word |
| MapLoader.SplitOn | agent_world_core/src/environment.rs:430 | the pieces hold no separator, and joining them with the separator gives back the input |
| MapLoader.Lines | agent_world_core/src/environment.rs:430-433 | no lines exactly when the text is all whitespace; otherwise the lines hold no newline and joined with newlines give back the trimmed text |
| MapLoader.Rows | agent_world_core/src/environment.rs:439-455 | one row per line, and each row is the words of that line |
| MapLoader.DecodeLegend | agent_world_core/src/environment.rs:464-537 | the legend `Decode` applies: `D` plus a colour letter is exactly a closed door of that colour; `K` plus a colour letter is exactly a key of that colour on floor; `WL` and `WA` are exactly the walls; every item lies on floor |
| MapLoader.CheckShape | agent_world_core/src/environment.rs:431-455 | passes exactly for a rectangular map; otherwise reports an empty map, a first row without codes, or the first row whose width differs, with the expected and the found width |
| MapLoader.Place | agent_world_core/src/environment.rs:539-542 | the cell gets the tile's terrain, and its item when the tile has one (else the old item stays); every other cell, the agents, the occupancy and the counter are unchanged |
| MapLoader.DecodeCells | agent_world_core/src/environment.rs:457-549 | on success every code is in the legend, the returned start is the single `ST`, and every cell holds its decoded terrain and item; otherwise the error is the first unknown code met before any second `ST`, a second `ST` met after only known codes, or a missing start |
| MapLoader.NoSingleStart | agent_world_core/src/environment.rs:465-468 | a second `ST` leaves the map without a single start cell |
| MapLoader.LoadRows | agent_world_core/src/environment.rs:431-549 | an empty row list is exactly the empty-map error; loading succeeds exactly for rectangular maps of known codes with a single start; a non-rectangular map gets the shape error `CheckShape` reports, a rectangular one the decoding error `DecodeCells` reports |
| MapLoader.LoadEnvironmentFromString | agent_world_core/src/environment.rs:429-550 | an all-whitespace text is exactly the empty-map error; loading succeeds exactly when the lexed rows are rectangular, all codes are known and there is a single start; otherwise the error is the shape report or the decoding report of the lexed rows; a loaded world holds the decoded cells and no agents |
| Planning.ManhattanDistance | agent_world_core/src/agent.rs:77-81 | the distance is zero exactly between equal cells and one exactly between neighbouring cells |
| Planning.ManhattanMetric | agent_world_core/src/agent.rs:77-81 | the distance is symmetric and satisfies the triangle inequality |
| Planning.PositionToAction | agent_world_core/src/agent.rs:84-100 | a move exactly toward a neighbouring cell, along one axis, landing on it; anything else is a wait |
| Planning.PositionToActionReaches | agent_world_core/src/agent.rs:84-100 | the move chosen for a neighbouring in-bounds cell takes the engine's mover onto exactly that cell |
| Planning.PassableIsAdmitted | agent_world_core/src/agent.rs:227-254 | a cell the planner may step onto, judged with the keys the mover holds, is one the engine never refuses |
| Planning.FilteredIsRefused | agent_world_core/src/agent.rs:227-254 | a cell the planner filters out is one the engine refuses, unless a goal or a key lies on it |
| Planning.Shift | agent_world_core/src/agent.rs:210-218 | a shifted cell exists exactly when neither coordinate goes below zero |
| Planning.ValidNeighbors | agent_world_core/src/agent.rs:190-260 | exactly the adjacent cells that are in bounds, free of agents, not walls and not closed doors of an unheld colour; at most four, none twice |
| Planning.NeighbourCases | agent_world_core/src/agent.rs:201-218 | the adjacent cells are exactly the four direction shifts that stay at or beyond zero |
| Planning.PathLength | agent_world_core/src/agent.rs:161 | a path of n steps covers a Manhattan distance of at most n, so the heuristic never overestimates |
| Planning.PathStaysInRegion | agent_world_core/src/agent.rs:142-169 | a path that starts in a region no step leaves stays in that region |
| Planning.MinIndex | agent_world_core/src/agent.rs:117-144 | a non-empty frontier always has an entry of least priority to pop |
| Planning.PopKeeps | agent_world_core/src/agent.rs:142-145 | popping any frontier entry keeps the search invariant, and every other queued cell stays queued |
| Planning.Relax | agent_world_core/src/agent.rs:157-167 | recording a strictly cheaper cost through the current cell keeps the search invariant: every recorded cost is the length of a path of legal steps through the predecessor links |
| Planning.Consider | agent_world_core/src/agent.rs:155-167 | handling one neighbour keeps the search invariant; afterwards the neighbour costs at most one more than the current cell, no recorded cost has risen, and either one new (cell, cost) pair was pushed or nothing changed |
| Planning.ExpandFrom | agent_world_core/src/agent.rs:154-168 | handling the neighbours from one on keeps the search invariant; each of them ends at most one step dearer than the current cell, and every newly recorded cell is queued |
| Planning.Expand | agent_world_core/src/agent.rs:151-168 | expanding a cell keeps the search invariant; afterwards every valid neighbour is recorded at most one step dearer than the expanded cell, no recorded cost has risen, and pushed pairs only grow |
| Planning.StaysClosed | agent_world_core/src/agent.rs:142-169 | once a cell has been popped and expanded, all its legal successors are recorded, and a recorded goal stays queued |
| Planning.Visit | agent_world_core/src/agent.rs:142-169 | one round of the loop keeps the search invariant; popping the goal stops it; otherwise it keeps popped cells closed and makes progress toward termination |
| Planning.Search | agent_world_core/src/agent.rs:130-173 | the search terminates and leaves predecessor links along legal steps back to the start; reaching the goal means it has a cost; a search whose start is the goal reaches it; a search that runs dry leaves a region closed under legal steps that misses the goal |
| Planning.Unreachable | agent_world_core/src/agent.rs:171-173 | a region around the start that no legal step leaves and that misses the goal rules out every path to it |
| Planning.Reconstruct | agent_world_core/src/agent.rs:175-186 | following the links back from the goal gives a plan from start to goal of legal steps; a start that is the goal gives the one-cell plan |
| Planning.AStarPath | agent_world_core/src/agent.rs:103-187 | a plan is found exactly when the goal is reachable by legal steps; a plan found runs from start to goal through distinct cells and is at least as long as their Manhattan distance; start = goal gives the one-cell plan |
| Planning.GetKeysHeld | agent_world_core/src/agent.rs:263-273 | exactly the colours of the keys in the inventory |
| Planning.FindChips | agent_world_core/src/agent.rs:276-286 | exactly the chip cells, each once, in row-major order |
| Planning.FindGoals | agent_world_core/src/agent.rs:289-299 | exactly the goal cells, each once, in row-major order |
| Planning.FindKeys | agent_world_core/src/agent.rs:302-315 | a colour is present only with at least one cell; a cell is listed under a colour exactly when a key of that colour lies there; each colour's cells come in row-major order, none twice |
| Planning.Slot | agent_world_core/src/agent.rs:356 | the place of a colour in the key map's iteration order: its first occurrence, or past the end when absent |
| Planning.KeyTargetsFrom | agent_world_core/src/agent.rs:356-370 | the key cells of the colours from a place in the iteration order on that are not held, colour block by colour block |
| Planning.TargetsJoin | agent_world_core/src/agent.rs:356-370 | one colour's block followed by the later colours' blocks keeps the membership and the order of the key search |
| Planning.KeyTargets | agent_world_core/src/agent.rs:356-370 | exactly the cells of keys of an unheld colour whose colour is in the iteration order; for an order without repeats, the colour blocks follow the order, each block is row-major, and no cell appears twice |
| Planning.PlanToNearestTarget | agent_world_core/src/agent.rs:318-342 | each search answers exactly for a reachable target; the result is the first of the shortest plans found, none exactly when no target is reachable, a valid plan to a target otherwise, and the one-cell plan when the start is a target |
| Planning.NearestMeans | agent_world_core/src/agent.rs:318-342 | a nearest-target answer is absent exactly when no target is reachable, is a valid plan to a target, and is the one-cell plan when the start is a target |
| Planning.TreasureTargets | agent_world_core/src/agent.rs:390-411 | the chip cells while any chip lies on the map, otherwise the goal cells, in row-major order |
| Planning.PlanToTreasure | agent_world_core/src/agent.rs:390-420 | the first of the shortest plans to the chips while chips remain, else to the goals; none exactly when no such cell is reachable; a plan found is valid and ends on such a cell |
| Planning.PlanToNearestReachableKey | agent_world_core/src/agent.rs:345-373 | the first of the shortest plans over the key cells of unheld colours, tried colour by colour in the iteration order; none exactly when no such key is reachable; a plan found is valid and ends on such a key |
| Planning.Adopt | agent_world_core/src/agent.rs:396-404 | the action moves toward the plan's second cell, and the queue keeps the cells after it |
| Planning.Moves | agent_world_core/src/agent.rs:396-403 | the first step of a legal plan is a move that the engine resolves onto the plan's second cell |
| Planning.GetAction | agent_world_core/src/agent.rs:381-437 | a non-empty queue is followed one cell at a time; otherwise a treasure plan of more than one cell is adopted first, a key plan only when no such treasure plan exists, and with neither the agent waits with an empty queue; an adopted plan is valid and its first move lands on its second cell |
| Planning.ChoiceIsUnitStep | agent_world_core/src/agent.rs:381-437 | every action the planner can choose is a wait or a move along one axis |
| Planning.Actors | agent_world_core/src/environment.rs:172-178 | the ids of the order that have an agent and a behaviour, in the order's sequence, none twice |
| Planning.Act | agent_world_core/src/environment.rs:176-189 | the planner's decision is taken on the agent's view of the current world, and the world changes exactly as the engine resolves that action |
| Planning.KeptJoin | agent_world_core/src/environment.rs:174-201 | two runs of steps by different agents keep each planner as the runs decided and leave the others alone |
| Planning.TurnFrom | agent_world_core/src/environment.rs:174-201 | the loop over the ids still to visit runs the turn as described step by step: skip ids without agent or behaviour, decide on the current world, resolve, stop at a win |
| Planning.TurnReplays | agent_world_core/src/environment.rs:174-202 | the turn's world and outcome are exactly the engine's replay of the steps taken |
| Planning.TurnActors | agent_world_core/src/environment.rs:174-201 | the steps are taken by the ids with an agent and a behaviour, one each in order, and a turn that stops before the last of them was won |
| Planning.TurnActorsAct | agent_world_core/src/environment.rs:176-198 | an acting id's step comes first, followed by a win or by the rest of the turn in a world with the same agents |
| Planning.TurnDriven | agent_world_core/src/environment.rs:180-189 | every step is its planner's decision on the world the earlier steps left |
| Planning.TurnKept | agent_world_core/src/environment.rs:174-201 | each planner that acted is found as before the turn and left as it decided; every other planner is untouched; only ids of the order act |
| Planning.TurnKeptAct | agent_world_core/src/environment.rs:178-189 | the acting id's planner is the one it decided on, and the rest of the turn leaves it alone |
| Planning.DrivenMoves | agent_world_core/src/environment.rs:188-189 | every planner-chosen step of a turn is a wait or a unit move |
| Planning.ProcessTurn | agent_world_core/src/environment.rs:171-203 | the turn equals the engine's replay of the steps taken; the outcome is success or a win, a win whenever some acting id did not get to act; each step is its planner's decision on the partly updated world; planners are updated exactly for the agents that acted |

## Left out

- The random-walk behaviour (agent.rs:24-59) depends on a random number generator and is not modelled. The turn loop is modelled with planning agents only, so the id-to-behaviour map holds `PlanningAgent` values.
- The terminal front end (the TUI `main.rs`) is I/O and is not modelled.
- The `HashMap` iteration orders are unspecified in the source. The order of agent ids in a turn and the order of key colours are parameters.
- ColourOrder: the key colours are taken as one order that lists each of the four colours once. The source iterates only the colours present in its map, but a colour with no key on the ground contributes no cell, so the targets are the same.
- KeyTargets: one key-colour order serves every decision of every agent in a turn. In the source each `find_keys` call builds a fresh `HashMap`, whose iteration order may differ from call to call.
- `Grid::new` and `Grid::from_generator` panic when `width * height` overflows `usize`. Integers are unbounded here, so that panic is not modelled.
- EntityId: ids are unbounded naturals. The `usize` overflow of `next_entity_id += 1` (environment.rs:83) and of `agent_id + 1` (environment.rs:165) is not modelled.
- The unchecked grid indexing panics out of bounds. It is modelled as a precondition that the cell is valid.
- The trivial accessors are not modelled: `width`, `height`, `iter`, `iter_mut`, `as_slice`, `get_mut` and `enumerate_mut` of map.rs, and `terrain`, `items`, `agent_locations` and `get_agent_state` of environment.rs.
- Error message strings become datatype values. The `eprintln!` warnings are not modelled: placing an agent on an item, and an invalid move in `position_to_action`.
- `PlanningAgent::new` is the datatype constructor with an empty queue.
- Some branches the source marks as internal errors cannot be reached. These are the `?` on a missing predecessor in the path rebuilding (agent.rs:181), the missing-cell branch of `process_action` (environment.rs:362-364), and the `None` branches of `get_valid_neighbors` and `get`. They are not modelled as separate outcomes.
- `lines()` strips a trailing `\r` from each line. That character is whitespace, which `split_whitespace` drops anyway, so lines are cut at `\n` only.
- AStarPath: does not state that the plan found is a shortest one. It proves that a plan is found exactly when the goal is reachable, and that a plan found is a legal path from start to goal.
- Search: the heap's tie-breaking among entries of equal priority is left nondeterministic. The pop takes any entry of least priority. For the same reason the order in which `ValidNeighbors` lists the neighbours is not part of any contract.
- ProcessTurn: its visiting order is any sequence of ids without repeats, which generalises the source's enumeration of the registered ids (a `HashMap`'s keys, each once).
- RunSteps: a failure result is passed over like a success, as the source's turn loop does. A refused move still keeps the item its pickup step collected.
- ResolveMoveKeepsOccupancy: excludes a win onto a goal cell another agent holds. The source breaks the invariant there, and WinOntoOccupiedGoalBreaksOccupancy states exactly that. The game ends on that win, so no later step sees the broken state.
