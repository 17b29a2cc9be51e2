# Disc game: a verified model of the simulation core

The disc game runs four discs around a square arena. Each disc is a record
`{x, y, xv, yv, alive}` in the global array `g_state`. Every tick, each alive
disc moves by its velocity, one axis at a time. A move that would reach or
cross a wall bounces instead: the velocity component is negated and the disc
stays where it is. Then the six pairs of discs are swept in a fixed order.
When two alive discs are closer than `collision_sensitivity` (5), the faster
disc absorbs the slower one. The slower disc dies and `alive_count` drops by
one. A tick that ends with the countdown at 0 or one disc left stops the
game. Start, pause and reset set and clear `enabled`. Reset also brings back
the saved initial layout.

The project has two modules:

- `Physics` (physics.dfy) holds the pure side: the `Disc` record, the
  `Board` value (records plus `alive_count`), and functions for the position
  step (`Advance`, `StepDisc`, `Step`), the absorption rule (`Absorb`,
  `HandleCollision`) and the sweep (`Collide`, `SweepFrom`, `Sweep`). The
  lemmas about them are here too.
- `Game` (game.dfy) holds the class `Session`. Its fields are an
  `array<Disc>` for `g_state`, `aliveCount`, `enabled`, `timer`, `timerMax`
  and the constant snapshot `saved`. Its methods update these in place, as
  the handlers do. `CalculatePos`, `HandleCollision`, `DetectCollision` and
  `Tick` are proved against the `Physics` functions; `Start`, `Pause`,
  `TimerTick`, `Reset` and `HandleGameOver` state their effect directly.
  `Session.Valid()` is the invariant that `Tick`, `TimerTick`, `Start`,
  `Pause` and `Reset` keep and that `HandleGameOver` restores (it is called
  when a sweep may have left one disc alive in a running game):
  - all discs stay in the arena;
  - `aliveCount` equals the number of alive discs and is at least 1;
  - a running game has at least two discs alive.

Coordinates are exact reals. Each `Math.sqrt` comparison is replaced by a
comparison of squares. `SquaredTestsAgree` proves that the two give the same
answer for any non-negative roots.

Three points of the code that the model keeps as they are:

- The code has no game-over latch. `handle_start` sets `enabled` again
  whenever `alive_count > 1`, even after a timeout.
- The line-91 test is `(d1.yv > 0 && d2.yv < 0) || (d1.yv < 0 && d1.yv > 0)`.
  Its second disjunct can never hold, and the model keeps it as written.
  `Absorb`'s ensures give the outcome in terms of the inputs alone, and the
  second disjunct plays no part in it.
- Initial velocities come from `Math.random()`, so they lie in [0, 1).

## Model

| member | source | states |
|---|---|---|
| Physics.Advance | js/main.js:57-58 | one axis either bounces (position kept, velocity negated) or moves (position plus velocity, velocity kept); for a non-zero velocity it bounces exactly when the move reaches or crosses 0 or 100; a position in [0, 100] stays in [0, 100]; the speed on that axis is kept |
| Physics.StepDisc | js/main.js:55-58 | a dead record is returned unchanged; an alive one moves each axis independently by `Advance`; the alive flag is kept; a disc in the arena stays in it; `abs(xv)` and `abs(yv)` are kept |
| Physics.Step | js/main.js:54-60 | every record is stepped independently; dead records are unchanged; all-in-arena is preserved; the number of alive discs is unchanged |
| Physics.Absorb | js/main.js:85-94 | the winner keeps its position and flag; its new velocity is one of four outcomes chosen by the original velocities: opposite x-signs with winner yv > 0 and loser yv < 0 add both components; opposite x-signs otherwise negate the summed xv and keep yv; x-signs not strictly opposite (either xv may be 0) with both yv < 0 keep xv and give yv = loser.yv - winner.yv; x-signs not strictly opposite otherwise negate both components |
| Physics.HandleCollision | js/main.js:85-98 | the winner gets `Absorb`; the loser is marked dead with its x, y, xv, yv unchanged; the other records are untouched; `alive_count` drops by exactly 1; the number of alive discs drops by 1 when the loser was alive |
| Physics.SquaredTestsAgree | js/main.js:68-73 | for any non-negative distance and speeds whose squares are the squared distance and speeds, `dist < 5` holds iff the squared distance is below 25, and `speed_i >= speed_j` holds iff the squared speeds compare the same way |
| Physics.Collide | js/main.js:67-80 | in pair (i, j), if the two are not both alive and near, nothing changes; otherwise j dies and i survives when speed(i) >= speed(j), so a tie goes to the lower index; otherwise i dies and j survives |
| Physics.CollideKeeps | js/main.js:67-97 | one pair step moves no disc, revives none, leaves dead discs exactly as they were, kills only i or j and only when both were alive and near, and keeps `alive_count` minus the alive number constant; a positive alive number stays positive |
| Physics.Near | js/main.js:68 | the distance test `dist < 5`, on squares; it is the same whichever disc is named first |
| Physics.SweepFrom | js/main.js:65-82 | the rest of the nested loops from pair (i, j): the rest of row i in ascending j, then the later rows; the board keeps four records |
| Physics.Sweep | js/main.js:64-83 | the whole sweep from (0, 1): no position changes, no disc revives, dead discs stay exactly as they were, and `alive_count` falls by exactly the number of deaths |
| Physics.SweepOrder | js/main.js:65-66 | the sweep is the composition of the pair steps in the order (0,1), (0,2), (0,3), (1,2), (1,3), (2,3) |
| Physics.SweepFromKeeps | js/main.js:64-83 | from any point of the sweep to its end, no position changes, no disc revives, dead discs stay exactly as they were, `alive_count` falls by exactly the number of deaths, and a positive alive number stays positive |
| Physics.SweepKillsOnlyNear | js/main.js:65-68 | a disc the sweep kills was alive before it, and another disc that was alive before it lay strictly within distance 5 |
| Physics.SweepKeepsInvariants | js/main.js:64-98 | if `alive_count` equals the alive number and is at least 1, and all discs are in the arena, the same holds after the sweep |
| Physics.TickFreezesDead | js/main.js:177-180 | across the step and the sweep of a tick, a dead disc is left exactly as it was, and no disc comes back to life |
| Game.EdgeOffset | js/main.js:24 | `Math.random() * 90 + 5` lies in [5, 95) |
| Game.InitialState | js/main.js:21-50 | four alive discs in the arena: disc 0 at x = 0, disc 1 at y = 0, disc 2 at x = 100, disc 3 at y = 100; each offset along its edge lies in [5, 95); all velocities lie in [0, 1) |
| Game.Session.constructor | js/main.js:1-51 | `g_state` and `saved_state` both hold the initial layout, `alive_count` is 4, the game is stopped, the countdown length is 60 (set by `setup`, js/main.js:117), and the invariant holds |
| Game.Session.CalculatePos | js/main.js:54-60 | updates the array in place to `Step` of the old array and keeps the invariant |
| Game.Session.HandleCollision | js/main.js:85-98 | updates the array and `alive_count` in place to `Physics.HandleCollision` of the old board |
| Game.Session.DetectCollision | js/main.js:64-83 | the nested loops leave the board equal to `Sweep` of the old board and keep the invariant |
| Game.Session.HandleGameOver | js/main.js:196-197 | the game is stopped, and with it the whole invariant holds again |
| Game.Session.Tick | js/main.js:177-185 | when not enabled nothing changes; otherwise the board becomes `Sweep` of the stepped board, and the game is stopped exactly when the countdown is 0 or one disc is left; the invariant holds |
| Game.Session.TimerTick | js/main.js:187-189 | the countdown drops by one when enabled and is unchanged otherwise |
| Game.Session.Start | js/main.js:126-137 | `enabled` becomes true exactly when it was true or more than one disc is alive |
| Game.Session.Pause | js/main.js:139-143 | `enabled` becomes false and nothing else changes |
| Game.Session.Reset | js/main.js:145-162 | whatever the state, a fresh array equal to the snapshot, `alive_count` 4, stopped, the countdown back at its length |

## Left out

- DOM lookups, rendering (`render_pos`), hiding dead discs, the game-over
  colouring and alert. These are presentation only.
- Event wiring, the keyboard mapping to start, pause and reset, and the
  `beforeunload` prompt. These are browser input and output.
- `setInterval` scheduling, the 15 ms and 1000 ms cadences and the
  ticker/timer handles. These are timing. Each handler is modelled as one
  atomic call, and the model does not say in which order the two intervals
  fire.
- `Math.random` in the initial layout: the twelve draws are constructor
  parameters in [0, 1), in the order the source calls it.
- The initial value of the timer input comes from the page markup. That
  markup is not part of this model, so it is a constructor parameter. The
  countdown length is 60, as the page sets it at load.
- `handle_timer_input`, which sets the countdown length from the input, and
  the progress-bar percentage. Neither is modelled. The countdown is a plain
  integer, decremented only while enabled.
- Game.Session.TimerTick: the browser may clamp the timer input at its
  minimum. That clamping is not visible in this code, so the model lets the
  countdown go below 0.
- IEEE-754 rounding and `Math.sqrt`: the model uses exact reals and squared
  comparisons.
