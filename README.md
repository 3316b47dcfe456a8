# Isometric grid walking: a verified Dafny model

This project models the grid-walking core of the isometric scene in
`src/core/MainScene.ts`. The scene has a 96×48 grid with random obstacles. A
diamond projection maps cells to the screen. A click runs an A* search. The
movement sequencer turns cursor keys and clicks into a queue of one-cell steps,
and each step is animated by a tween.

The model has four modules, one per part of the scene:

- `Grid` (Grid.dfy): cells, the obstacle map (`obstacles[y][x]`, 48 rows of 96),
  the rule that builds it from one random draw per cell and never blocks (0, 0),
  and the walkability tests `isValidMove` / `isValidTarget`.
- `Isometric` (Isometric.dfy): `getIsoPosition` and `screenToGrid`, in exact
  rational arithmetic. `Math.round` is `Floor(v + 1/2)`. The camera scroll is
  *added* to the pointer position (viewport to world), as the code does at line
  276. `InTile` says when a world point lies in a cell's drawn diamond.
  `ScreenToGrid` is proved to return the one cell whose diamond holds the point.
- `PathFinding` (PathFinding.dfy): `heuristic` (Manhattan distance), the four
  directions, the open list's stable sort by f (`SortByF`), `reconstructPath`,
  and `findPath`. Both methods loop over maps and sequences as the source does.
  The code reads a stored g with a fallback: 0 when it forms the tentative
  score, Infinity when it compares against it. Both fallbacks are modelled
  exactly. A stored 0 therefore reads as missing, so the start cell can be
  relaxed again and re-enter the open list. An entry already in the open list
  keeps its stale f. The proofs do not assume that `gScore[start]` stays 0.
- `Scene` (Scene.dfy): class `MainScene` with the sequencer's fields
  (`playerPosition`, `moveQueue`, `isMoving`, `currentMoveTween`, the two
  speeds) and the engine's list of running tweens. It has one method per scene
  operation, plus `OnTweenComplete`, which is the tween's `onComplete` callback.

Invariants and facts the model proves:

- `MainScene.Valid()` is kept by every operation. It says:
  - the player always stands on a walkable cell;
  - every queued step is walkable;
  - `isMoving` holds exactly when a current tween is held;
  - that tween is still running.
- One expansion of a popped cell relaxes exactly the walkable neighbours whose
  tentative g beats their stored g, leaves every other cell as it was, and
  keeps the search invariant (`ExpandNeighbours`, `ExpandedKeepsInvariant`).
- A path returned by `FindPath` is a walk of unit steps from the start to the
  target. Every cell after the start is walkable, and no cell appears twice.
- `FindPath(s, s)` is `[s]`.
- An unwalkable target other than the start gets `[]`.
- No path is shorter than the Manhattan heuristic.
- `ReconstructPath` ends because g strictly falls along the predecessor links
  away from the start. This is proved, not bounded.

`ClearQueueAndMove` does not stop the tween in flight, so the model lets several
tweens run at once. When any of them completes, the scene clears `isMoving` and
its handle. `KeyDuringMoveLeavesTweenRunning` shows this on a concrete run: two
down-arrow presses, then the older tween completes. The scene then says
"not moving" while the newer tween still runs.

## Model

| member | source | states |
|---|---|---|
| `Grid.DrawObstacles` | src/core/MainScene.ts:60-84 | cell (x, y) is blocked exactly when its random draw fired and it is not (0, 0); the map has 48 rows of 96 and (0, 0) is free |
| `Grid.IsValidMove` | src/core/MainScene.ts:174-176 | its body is the source's test: in the 96×48 bounds and not an obstacle (`obstacles[y][x]`) |
| `Grid.IsValidTarget` | src/core/MainScene.ts:158-162 | its body is the source's test on a cell: in the bounds and not an obstacle |
| `Grid.ValidTargetIsValidMove` | src/core/MainScene.ts:158-176 | `isValidTarget` and `isValidMove` agree on every cell, and a walkable cell lies inside the 96×48 grid |
| `Grid.OriginIsWalkable` | src/core/MainScene.ts:78 | the spawn cell (0, 0) is walkable on every obstacle map the scene can draw |
| `Isometric.GetIsoPosition` | src/core/MainScene.ts:264-269 | its body is the source's projection: (x − y)·32 + 400 across and (x + y)·16 + 200 down, for tile size 64 |
| `Isometric.Round` | src/core/MainScene.ts:285-288 | the rounded value is the integer r with r − 1/2 ≤ v < r + 1/2 (Math.round, halves up) |
| `Isometric.ScreenToGrid` | src/core/MainScene.ts:271-289 | the returned cell's diamond contains the world point, i.e. the viewport point plus the camera scroll |
| `Isometric.InTileUnique` | src/core/MainScene.ts:279-287 | no world point lies in two cells' diamonds, so the clicked cell is unique |
| `Isometric.InTileIsTileDiamond` | src/core/MainScene.ts:64-71 | a point strictly inside a tile's drawn polygon (half a tile across, a quarter down) is in that tile, and every point of the tile is in the closed polygon |
| `Isometric.ScreenToGridInvertsIsoPosition` | src/core/MainScene.ts:264-289 | for any cell and any camera scroll, clicking the cell's projected centre (minus the scroll) selects exactly that cell |
| `PathFinding.Heuristic` | src/core/MainScene.ts:249-251 | its body is the source's Manhattan distance, the sum of the absolute coordinate differences |
| `PathFinding.AdjacentIsOneDirection` | src/core/MainScene.ts:214-229 | two cells are at Manhattan distance 1 exactly when one is the other shifted by one of the four search directions |
| `PathFinding.DirectionIsStep` | src/core/MainScene.ts:214-217 | each of the four search directions moves a cell by exactly one unit step, never onto itself |
| `PathFinding.HeuristicConsistent` | src/core/MainScene.ts:249-251 | one unit step changes the heuristic by at most one, in both directions |
| `PathFinding.WalkNoShorterThanHeuristic` | src/core/MainScene.ts:249-251 | the heuristic is admissible: every walk from a to b has at least heuristic(a, b) steps |
| `PathFinding.InsertByF` | src/core/MainScene.ts:220 | inserting into the sorted list adds exactly the one entry (same multiset plus n) |
| `PathFinding.InsertByFBounded` | src/core/MainScene.ts:220 | a lower bound on f shared by the entry and the list holds for every entry of the result |
| `PathFinding.InsertByFSorted` | src/core/MainScene.ts:220 | inserting into a list sorted by f keeps it sorted |
| `PathFinding.SortByF` | src/core/MainScene.ts:220 | the open list's sort is a permutation of its input |
| `PathFinding.SortByFIsSorted` | src/core/MainScene.ts:220 | the sorted open list is ordered by f |
| `PathFinding.SortByFHeadIsFirstMinimal` | src/core/MainScene.ts:220-221 | sort-then-shift takes the first entry (in list order) with the least f |
| `PathFinding.InsertWithF` | src/core/MainScene.ts:220 | inserting an entry puts it ahead of every entry with the same f and keeps their order |
| `PathFinding.SortByFStable` | src/core/MainScene.ts:220 | the sort is stable: for every f, the entries with that f come out in the order they went in |
| `PathFinding.SortByFKeepsEntries` | src/core/MainScene.ts:220 | sorting neither adds nor loses entries |
| `PathFinding.PopKeepsInvariant` | src/core/MainScene.ts:219-221 | taking the head of the sorted open list keeps the search invariant, and the head is the start or a cell with a predecessor |
| `PathFinding.NeighboursDistinct` | src/core/MainScene.ts:214-217 | the four search directions take a cell to four different neighbours |
| `PathFinding.InOpenSetGrows` | src/core/MainScene.ts:240 | a cell the open-list membership test finds is still found after the list has grown |
| `PathFinding.TrackedStep` | src/core/MainScene.ts:227-243 | one turn of the direction loop for the i-th neighbour: if it is walkable and its tentative g (the popped cell's g plus one) beats its stored g, it gets the popped cell as link, that g, that g plus the heuristic as f, and an open entry; otherwise nothing changes. Either way the earlier improving neighbours stay relaxed, the later neighbours and every non-improving cell keep their link, g and f, and the open list only grows, by improving cells with their tentative f |
| `PathFinding.RelaxedUpToStep` | src/core/MainScene.ts:235-242 | relaxing the i-th neighbour relaxes it and keeps the earlier relaxed neighbours relaxed |
| `PathFinding.KeptFromStep` | src/core/MainScene.ts:235-238 | relaxing the i-th neighbour leaves the link, g and f of the later neighbours untouched |
| `PathFinding.KeptElsewhereStep` | src/core/MainScene.ts:235-238 | relaxing an improving cell leaves the link, g and f of every non-improving cell untouched |
| `PathFinding.TrackedAppend` | src/core/MainScene.ts:240-242 | an entry is appended only when the cell has none; afterwards the cell has an entry, the old list is a prefix, and every entry past the original list is for an improving cell with f equal to its tentative g plus the heuristic |
| `PathFinding.TrackedRelax` | src/core/MainScene.ts:232-242 | the relaxing turn, read against the loop's current g (equal to the original for the popped cell), advances the record of the loop and leaves the popped cell's g alone |
| `PathFinding.TrackedSkip` | src/core/MainScene.ts:232-235 | the turn for a neighbour that is off the grid, blocked or not better changes nothing and advances the record of the loop |
| `PathFinding.ExpandedAll` | src/core/MainScene.ts:227-244 | after the four turns every improving cell, being one of the four neighbours, is relaxed |
| `PathFinding.ExpandNeighbours` | src/core/MainScene.ts:227-244 | every walkable neighbour whose tentative g beats its stored g (0 and missing read as Infinity) gets the popped cell as link, the tentative g, tentative g plus heuristic as f, and an open entry; every other cell keeps its link, g and f; the old open list is a prefix of the new one, and each added entry is for such a neighbour with its tentative f and is the first entry for its cell (a cell that already has an entry keeps it, with its old f); every link is an original one or points to the popped cell |
| `PathFinding.ExpandedKeepsChain` | src/core/MainScene.ts:227-244 | after an expansion every link is still a unit step back to the start or a linked cell, and away from the start it still strictly lowers g |
| `PathFinding.ExpandedKeepsInvariant` | src/core/MainScene.ts:227-244 | an expansion from the start or a linked cell keeps the search invariant: sound links, the start scored, linked cells walkable, g at least 1 off the start, open entries for the start or linked cells |
| `PathFinding.ExpandedKeepsHistory` | src/core/MainScene.ts:227-244 | after an expansion every link is an original one or points to the popped cell, and every open entry past the original list is for a cell linked to the popped cell |
| `PathFinding.ReconstructPath` | src/core/MainScene.ts:253-262 | the result starts at start and ends at target; each later cell's predecessor link is the cell before it; no cell repeats; it is a walk; when target is start it is `[start]` |
| `PathFinding.UnwindStep` | src/core/MainScene.ts:256-259 | one step back along the links keeps the passed cells a linked, g-rising run ending at target, and g falls unless start is reached, so the walk back ends |
| `PathFinding.UnwoundPath` | src/core/MainScene.ts:253-262 | once start is reached, start plus the passed cells is a repeat-free walk of links ending at target |
| `PathFinding.LinkChainIsFoundPath` | src/core/MainScene.ts:223-224 | a reconstructed chain of links through walkable linked cells is a found path from start to target |
| `PathFinding.FindPath` | src/core/MainScene.ts:206-247 | a non-empty result is a repeat-free walk from start to target through walkable cells; `findPath(s, s)` is `[s]`; a target other than the start that is off the grid or blocked gives `[]` |
| `Scene.KeyDelta` | src/core/MainScene.ts:119-144 | its body is the key chain both handlers share (lines 119-127 and 136-144): the first key down in left, right, up, down order gives (−1, 1), (1, −1), (−1, −1) or (1, 1), and no key gives none |
| `Scene.KeyDeltaMovesAlongScreen` | src/core/MainScene.ts:119-144 | the diagonal grid steps of the left/right/up/down keys move the player's diamond straight left/right (one tile) or up/down (half the tile size, one diamond height) on screen |
| `Scene.StopTween` | src/core/MainScene.ts:304-306 | stopping the tween with a given id leaves exactly the other running tweens |
| `Scene.StopTweenKeepsOrder` | src/core/MainScene.ts:304-306 | stopping a tween keeps the running tweens in start order |
| `Scene.MainScene.constructor` | src/core/MainScene.ts:7-16 | the scene starts valid and idle with the player on (0, 0) and speeds 300 and 150 |
| `Scene.MainScene.ProcessMoveQueue` | src/core/MainScene.ts:178-204 | an empty queue changes nothing; otherwise exactly the head is removed, the position becomes the head and `isMoving` is set before the tween starts; the tween goes to the head's centre with the click speed if steps remain and the arrow-key speed otherwise |
| `Scene.MainScene.OnTweenComplete` | src/core/MainScene.ts:198-202 | a running tween (not necessarily the current one) ends; `isMoving` and the handle are reset, then the next queued step is taken if there is one |
| `Scene.MainScene.QueueMove` | src/core/MainScene.ts:164-172 | the cell at position + delta is appended and the queue processed if it is walkable; otherwise the queue, position and tweens are unchanged |
| `Scene.MainScene.ClearQueueAndMove` | src/core/MainScene.ts:130-133 | the old queue is dropped; a walkable step moves the position by the delta and leaves the queue empty, otherwise the position stays; no running tween is stopped |
| `Scene.MainScene.HandleQueueMovement` | src/core/MainScene.ts:118-128 | the first key down (left, right, up, down) replaces the queue with its diagonal step; no key changes nothing |
| `Scene.MainScene.HandleKeyboardMovement` | src/core/MainScene.ts:135-145 | the first key down queues its diagonal step; no key changes nothing |
| `Scene.MainScene.Update` | src/core/MainScene.ts:109-116 | keys go to the queue handler while moving or queued and to the keyboard handler otherwise; either way a key leaves the queue empty and the position advanced by its step if walkable |
| `Scene.MainScene.CancelMovement` | src/core/MainScene.ts:303-311 | ends idle (queue empty, not moving, no handle) with the current tween stopped and the position unchanged; cancelling an idle scene changes nothing (idempotent) |
| `Scene.MainScene.HandleClick` | src/core/MainScene.ts:147-156 | an unwalkable clicked cell, or no path, ends in the cancelled state; a found path is installed with its head dequeued at once, so the queue is the path without the start, the position is unchanged and a tween runs |
| `Scene.MainScene.SetMovementSpeeds` | src/core/MainScene.ts:313-316 | both durations are replaced and nothing else changes |
| `Scene.KeyDuringMoveLeavesTweenRunning` | src/core/MainScene.ts:130-133 | two down-arrow presses in a row run two tweens at once; after the older one completes the scene reports not moving while one tween still runs |

## Left out

- Random obstacle generation: the outcome of `Math.random() < 0.2` for each cell is an input (`draws`) of `DrawObstacles`. The scene takes any obstacle map of the right size with (0, 0) free.
- Rendering: tile and player polygons, hover colours (lines 86-96), path highlighting `displayPath`/`clearPath` (lines 291-301, and the call in `update`), camera bounds, zoom and follow (lines 34-37).
- Engine input wiring (lines 43-53): `JustDown` results arrive as a `CursorKeys` value, a click as a call to `HandleClick` with the viewport point and the camera scroll, and the escape key as a call to `CancelMovement`.
- Tween easing and interpolation: a tween is its target point and duration. `stop()` removes it from the running list. A stopped tween never completes, and a running one may complete at any time.
- Floating point: all coordinates are exact rationals, and grid values are unbounded integers.
- Host setup failures: the keyboard-unavailable check (lines 24-27) and the try/catch logging (lines 30-49).
- FindPath (`PathFinding.FindPath`): the search takes at most `fuel` entries off the open list and returns `[]` when the fuel runs out. The source goes on until the open list is empty; termination of that loop is not proved. The contract does not claim that a path is found when one exists, nor that a found path is shortest (the open list keeps stale f values).
- HandleClick (`Scene.MainScene.HandleClick`): takes the search's `fuel` as an extra parameter, which is passed to `FindPath`. When the fuel runs out first, `FindPath` returns `[]`, so a reachable target can still end in the cancelled state.
- String map keys `${y},${x}` are `Cell` keys. On integers both are one-to-one, so nothing differs.
- The open list's `sort` is the stable insertion sort `SortByF`. Any stable sort by f gives the same list.
- The platformer scene and its helpers (player, input, movement, jump, attack, waiting, platforms, spritesheet, animation, camera, FPS, game bootstrap) are not part of this model. They are engine configuration, driven by the engine's clock and animation callbacks.
