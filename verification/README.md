# Snake step model

A Dafny model of the deterministic game step of the two-player snake game in
`src/main.rs`. The game runs a fixed schedule every tick:

1. the keyboard steers the head (`input` and `update_dir`);
2. the snake moves as a shift register (`move_snake`);
3. the head is checked against the walls, the body and the food (`check_collisions`);
4. every `Safe` event appends a tail segment (`add_segment`);
5. any `Deadly` event ends the game (`game_over`).

A slower stage places food on free cells (`spawn_food`). `setup` creates the
one-segment snake at the start.

Every position the game creates is a pixel of the form `26 * k + 13`. The model
therefore keeps integer cell indices `k`. The game's pixel-level tests are
written out as they appear in the code:
- the wall test on `|x|` and `|y|`;
- the axis-aligned overlap of unit-scale boxes;
- the spawner's exact pixel comparison.

Each of them is proved equivalent to its cell-level meaning. The field is 10
boxes wide and 20 high, so the live cells are `-5 <= x < 5` and `-10 <= y < 10`.

Modules:
- `Geometry`: constants, directions, cells, pixels, the wall and overlap tests.
- `GameState`: segments, the state (snake and food) and the invariant `WellFormed`.
- `Steering`: keyboard events and the key match shared by `input` and `update_dir`.
- `Movement`: the shift-register move, as a function and as the loop the game runs.
- `Collision`: collision events and the food left after a tick.
- `Growth`: new tail segments.
- `Terminal`: the game-over decision.
- `FoodSpawn`: the retry loop of the food spawner over a given run of random draws.
- `Simulation`: one tick in schedule order, runs of ticks, and the invariants they keep.
- `Wrappers`: `Option`.

The central result is `Simulation.TickPreservesWellFormed`. Every tick keeps the
snake non-empty and connected, with each segment one box ahead of the next. No
segment holds a pending 180-degree turn. Food stays distinct, in the field and
off the snake. `RunPreservesWellFormed` extends this to any run of ticks from
`GameState.Setup`.

The key fact behind food staying off the snake is `GrowthRefillsOldTail`. In a
connected snake, the tail segment that growth appends right after a move lands
exactly on the cell the old tail has just left.

The code's parallel stage does not order `update_dir` before `move_snake`. The
model fixes the order: direction update, move, collisions, growth, game over.
The field is 20 boxes high (src/main.rs:16), so the top wall sits ten cells
above the start; `Simulation.StraightTick` shows a lone head heading up dies on
entering row 10.

## Model

| member | source | states |
|---|---|---|
| Geometry.Advance | src/main.rs:273-278 | the head's move lands on a different cell at Manhattan distance exactly one |
| Geometry.Behind | src/main.rs:333-338 | the new tail's cell is the one from which a step in the tail's direction reaches the old tail, i.e. one box in the opposite direction |
| Geometry.WallHit | src/main.rs:290-291 | the pixel-magnitude wall test is deadly exactly when the cell lies outside -5 <= x < 5, -10 <= y < 10 |
| Geometry.Collide | src/main.rs:297-302 | the overlap test on unit-scale boxes at cell centres reports a hit exactly when the two cells are equal |
| Geometry.SamePixel | src/main.rs:365-368 | the spawner's exact pixel comparison holds exactly when the two cells are equal |
| GameState.Setup | src/main.rs:171-178 | the start state is well-formed, a lone head at pixel (13, 13) facing and heading up, with no food |
| Steering.PressedKeys | src/main.rs:222-226 | exactly the key codes of pressed events that carry one are passed on: every such key appears and nothing else does; a single event passes its key exactly when it is pressed and carries one |
| Steering.PressedKeysAppend | src/main.rs:222-226 | the filter distributes over concatenation of event sequences, so with the single-event case the keys come out in event order |
| Steering.ApplyKey | src/main.rs:228-246 | an arrow other than the reverse of the committed direction becomes the next direction; a reversal or a non-arrow key leaves the segment as it was; the committed direction and cell never change |
| Steering.ApplyKeys | src/main.rs:222-247 | the key loop changes only the next direction and never introduces a pending reversal |
| Steering.ApplyKeysTakesLastAccepted | src/main.rs:222-247 | after the loop the next direction is the last accepted arrow of the key sequence, read back to front, or the old next direction if no arrow was accepted |
| Steering.UpdateDir | src/main.rs:217-248 | the direction-update system keeps the head's cell and committed direction and never makes it reverse |
| Steering.UpdateDirIdempotent | src/main.rs:187-211 | running the key match a second time over the same events, as the input hook and the update system both do, changes nothing more |
| Steering.Input | src/main.rs:181-215 | the input hook steers the head exactly as the direction-update system does, and its wire payload is always 0 |
| Movement.Moved | src/main.rs:250-280 | the length is kept; segment i takes segment i-1's pre-move segment and cell; the old tail is dropped; the head moves one box along its pre-move next direction and commits it |
| Movement.MoveSnake | src/main.rs:250-280 | the snapshot-and-copy loop followed by the head's step computes exactly Moved |
| Movement.MovePreservesShape | src/main.rs:250-280 | a move keeps a connected snake connected and keeps every segment free of pending reversals |
| Movement.MovedCells | src/main.rs:260-278 | the cells after a move are the head's new cell followed by all old cells but the tail's |
| Collision.SelfHits | src/main.rs:296-307 | there is one Deadly event per body segment on the head's cell, and nothing else |
| Collision.EatFood | src/main.rs:308-320 | there is one Safe event per piece of food on the head's cell; exactly those pieces are removed and every other piece is kept |
| Collision.CheckCollisions | src/main.rs:282-321 | Deadly is raised exactly when the head is outside the field or on a non-head segment's cell, at least once for the wall; the Safe count is the food count at the head; the remaining food is the old food with the head's cell removed |
| Growth.NewTail | src/main.rs:331-343 | the new segment copies the tail's directions and sits one box behind the tail along the tail's committed direction |
| Growth.AddSegment | src/main.rs:329-346 | the snake grows by exactly the number of Safe events; existing segments are unchanged; each appended segment is the NewTail of the one before it |
| Growth.AddSegmentPreservesShape | src/main.rs:329-346 | growth keeps the snake connected and free of pending reversals |
| Terminal.ExitRequests | src/main.rs:383-387 | one exit request is sent per Deadly event |
| Terminal.GameOver | src/main.rs:379-388 | the game exits exactly when the tick produced a Deadly event |
| FoodSpawn.CountAt | src/main.rs:365-368 | the occupancy count at a drawn position is the number of occurrences of that cell |
| FoodSpawn.SpawnAttempt | src/main.rs:362-375 | one pass stops when the transform count reaches the number of cells, and places food at the drawn cell exactly when there is room and nothing occupies it |
| FoodSpawn.SpawnFood | src/main.rs:349-377 | the snake is untouched; food is either unchanged or extended by the first free draw; nothing is added when the count reaches the number of cells; one piece is added when there is room and some draw is free; well-formedness is kept |
| Simulation.Tick | src/main.rs:118-127 | after one tick the head is on the steered next cell and committed to it; the body is the old snake shifted by one; the snake grows by the food count at that cell and exactly that food disappears; the game exits exactly when that cell is outside the field or on a segment other than the old tail |
| Simulation.SteeredShape | src/main.rs:228-246 | steering keeps every cell, keeps the snake connected and introduces no pending reversal |
| Simulation.GrowthRefillsOldTail | src/main.rs:329-345 | in a connected snake the segment appended right after a move sits on the old tail's pre-move cell |
| Simulation.GrownCell | src/main.rs:250-346 | with at most one Safe event, every segment after the move and the growth sits on the head's new cell or on a cell the snake covered before the move |
| Simulation.KeptFoodDistinct | src/main.rs:316-319 | removing the food under the head keeps the remaining food distinct |
| Simulation.KeptFoodOffSnake | src/main.rs:250-346 | food that was off the snake and not under the new head is still off the snake after the move and the growth |
| Simulation.TickPreservesWellFormed | src/main.rs:118-127 | a tick keeps the snake non-empty, connected and free of pending reversals, and the food distinct, in the field and off the snake |
| Simulation.TickGrowsAtMostOne | src/main.rs:308-345 | in a well-formed state a tick appends one segment if there is food on the head's next cell, and none otherwise |
| Simulation.Run | src/main.rs:118-127 | a run with no inputs leaves the state as it is and does not exit; a run whose first tick exits ends with exactly that tick's outcome; a run only exits after some tick; the snake never shrinks |
| Simulation.RunPreservesWellFormed | src/main.rs:118-130 | every state reached from a well-formed state is well-formed |
| Simulation.StraightTick | src/main.rs:271-294 | without keys a lone head heading up moves one row up and the game ends exactly when that row is outside the field, so it dies on reaching row 10 |

## Left out

- The GGRS rollback layer is not modelled: saving, loading, prediction, resimulation and the session builder live in `bevy_ggrs` and `ggrs`. A tick here is a pure function of the state and the keys.
- The matchbox socket, the task pool, the window, the camera bundle and the sprite bundles are not modelled. They are I/O and engine setup with no game logic.
- The fixed-timestep run criteria are not modelled. The model ticks when asked to.
- The random draws of `spawn_food` become a parameter: a finite run of in-field candidate cells. The retry loop terminates only with probability one. Running out of draws stands for a loop that has not yet found a free cell.
- The camera's transform counts towards the spawner's fullness test. It enters as the `others` count, and `Free` ignores it because it sits at pixel (0, 0), which is never a cell centre. So when exactly one cell is free, the count with the camera already reaches the number of cells and no food is placed there.
- Floating-point positions are replaced by integer cells. Every position the game creates is an exact multiple-plus-half of the box size, so nothing is rounded.
- `AppExit` delivery is modelled as a boolean exit flag on the tick's outcome.
- Decoding the wire payload is not modelled. The game never decodes it, and the payload is the constant 0.
- The order of `update_dir` and `move_snake` in the parallel stage is fixed as update before move. The engine may run them in either order.
- Growth with two Safe events in one tick: the engine defers spawning, so the second tail lookup would find an entity that does not exist yet. `Growth.AddSegment` appends one segment per Safe event, as the loop reads. `Simulation.TickGrowsAtMostOne` shows this case never arises from a well-formed state, because food is distinct.
- Food is not registered for rollback, so a resimulation would not restore eaten food. The model has no rollback, so this does not show.
