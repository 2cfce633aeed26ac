# rust-snake: the game simulation, verified in Dafny

This project models the simulation in `src/lib.rs` of rust-snake, a terminal snake game, without the drawing code:

- the `u16` grid and the `i16` velocities;
- blocks and how one step moves them;
- the snake: building it, moving it, steering it, growing it, and its collision test;
- the screen's bounds;
- the score;
- the game: one frame, pausing, steering and the game-over test.

The files are:

- `blocks.dfy` (module `Blocks`): `u16` and `i16` as subset types.
  - `Velocity`, `Coordinates` and `Block` are value datatypes.
  - `Block::do_move` is `Block.Moved`. It writes out the `wrapping_add` of a two's-complement `as u16` cast explicitly, and uses `i16::abs` as an optimised build computes it.
- `screen.dfy` (module `Screens`): `Screen` and its inbound predicates.
  - It also has the half-open box `gen_range` draws mice from.
- `snake.dfy` (module `Snakes`): `Body`, the value of a snake, on which one tick, steering and growth are specified.
  - `class Snake` holds `head` and `tail` and updates them in place.
  - Its methods are proved to compute the `Body` functions.
  - `Follows` says that every tail block's own step lands on the cell of the block ahead of it. It is a conditional invariant: ticks, growth and steering a moving snake preserve it. `Game::new` does not establish it; the first right turn of a new snake does.
- `game.dfy` (module `Games`): `Score`, `Mice`, and `Snapshot` (a game as one value).
  - `Respawn`, `Place`, `Eat` and `Frame` specify `calc_new_frame` on values.
  - `class Game` holds the five fields of the Rust struct. Its methods run the nested loops of `calc_new_frame` and are proved to compute `Frame`.

The random generator is an oracle.

- A call that places a mouse takes its position from a sequence `draws`. Each draw lies in the box `gen_range` samples from.
- The respawn loop of `calc_new_frame` has no bound. The model consumes draws in order and reports `completed == false` if they run out before a mouse lands off the tail.
- Every property of a finished frame is stated under `completed`.

## Model

| member | source | states |
|---|---|---|
| Blocks.Step | src/lib.rs:68-76 | one axis of a move is the coordinate plus the velocity modulo 2^16; x = 0 with velocity -1 wraps to 65535; velocity -32768 (whose `abs` stays negative) does not move |
| Blocks.StepInverse | src/lib.rs:68-76 | a step by `v` followed by a step by `-v` returns to the starting coordinate, across the wrap |
| Blocks.Velocity.IsSame | src/lib.rs:25-27 | true exactly when the two velocities are equal |
| Blocks.Coordinates.IsSame | src/lib.rs:41-43 | true exactly when the two cells are equal |
| Blocks.Block.New | src/lib.rs:53-59 | the block is at (x, y) with the given symbol and at rest, so a move leaves it where it is |
| Blocks.Block.WithVelocity | src/lib.rs:78-80 | only the velocity changes, to the one given; coordinates and symbol are kept |
| Blocks.Block.NewRandom | src/lib.rs:61-64 | the block lies at the draw, inside the half-open box `[min_x, max_x) x [min_y, max_y)`, at rest, with the given symbol |
| Blocks.Block.Moved | src/lib.rs:68-76 | for velocity components other than -32768, x' = (x + vel_x) mod 65536 and y' = (y + vel_y) mod 65536; velocity and symbol unchanged; a block at rest stays put |
| Blocks.MovedThenBack | src/lib.rs:68-80 | moving, reversing the velocity and moving again brings a block back to its cell |
| Screens.Screen.New | src/lib.rs:236-245 | the terminal is size_x by size_y; the playing box starts at 2, so the frame drawn one cell outside it lies on column and row 1 and on the terminal's last column and row |
| Screens.NewScreenInbound | src/lib.rs:247-257 | `is_inbound` (both `is_x_inbound` and `is_y_inbound`) on `Screen::new(sx, sy)` holds iff the cell lies in the inclusive box [2, sx-1] x [2, sy-1] |
| Screens.SpawnBoxIsInbound | src/lib.rs:103-105 | every cell a mouse can be drawn on is in bounds, and the last column of the playing box is never drawn |
| Screens.UnitStepFromInboundNeverWraps | src/lib.rs:68-76 | a unit step from an in-bounds cell is plain addition and reaches at least coordinate 1, so the head leaves the box before it could wrap; tail blocks are not covered (see `TailWrapsInPlay`) |
| Snakes.PositionFinds | src/lib.rs:146-151 | `iter().position` returns the first index of a tail block on the cell, and nothing exactly when no tail block is on it |
| Snakes.IntersectsTailIff | src/lib.rs:146-151 | `Body.IntersectsTail`, the value form of `does_intersect_tail`, holds iff some tail block lies on the cell |
| Snakes.Snake.DoesIntersectTail | src/lib.rs:146-151 | true iff some tail block of the snake lies on the given cell |
| Snakes.Snake.IsStuck | src/lib.rs:142-144 | true iff some tail block lies on the head's cell; the head is not compared with itself |
| Snakes.MovedTail | src/lib.rs:162-169 | tail block k moves by its own pre-tick velocity and then takes the pre-tick velocity of block k-1 (the head's for k = 0); length kept |
| Snakes.Body.Moved | src/lib.rs:159-170 | the head moves and keeps its velocity; the tail keeps its length; every tail block moves by its own old velocity; velocities shift one place down the tail |
| Snakes.Snake.DoMove | src/lib.rs:159-170 | the in-place loop with the swap-if-different leaves exactly `Body.Moved` of the old snake |
| Snakes.Body.Steered | src/lib.rs:172-181 | a snake at rest takes the velocity on every block; a moving one changes only the head's velocity, and only if both components differ; coordinates never change |
| Snakes.Snake.SetVelocity | src/lib.rs:172-181 | the in-place update leaves exactly `Body.Steered` of the old snake |
| Snakes.ReversalIgnored | src/lib.rs:178-181 | a moving head ignores a request to repeat, reverse or stop its motion |
| Snakes.QuickTurnsReverse | src/lib.rs:178-181 | two perpendicular turns before a tick reverse a head moving right, since the filter compares with the buffered velocity |
| Snakes.Body.Grown | src/lib.rs:137-140 | exactly one block is appended, at rest on the old last block's cell; the head and the old tail are unchanged |
| Snakes.Body.GrownBy | src/lib.rs:137-140 | growing n times keeps the head and adds exactly n tail blocks |
| Snakes.GrownByShape | src/lib.rs:137-140 | after n growths the old tail is a prefix and every new block is at rest on the old last block's cell |
| Snakes.Snake.Grow | src/lib.rs:137-140 | the snake becomes `Body.Grown` of the old snake |
| Snakes.Start | src/lib.rs:120-131 | the head at (x, y) and three tail blocks at (x-1, y), (x-2, y), (x-3, y), all at rest; the new snake is not stuck |
| Snakes.Snake.constructor | src/lib.rs:120-131 | the pushing loop builds exactly `Start(x, y)`: the head at (x, y) and three tail blocks at (x-1, y), (x-2, y), (x-3, y), all at rest |
| Snakes.MovedKeepsFollows | src/lib.rs:159-170 | a following body still follows after a tick, and every tail block lands on the cell the block ahead of it left |
| Snakes.GrownKeepsFollows | src/lib.rs:137-140 | growing keeps a following body following |
| Snakes.GrownByKeepsFollows | src/lib.rs:137-140 | growing any number of times keeps a following body following |
| Snakes.SteeredKeepsFollows | src/lib.rs:178-181 | steering a moving snake keeps it following |
| Snakes.StartFollowsAfterRightTurn | src/lib.rs:120-131 | the snake `Snake::new` builds follows its head once it is steered to the right |
| Snakes.FollowsKeepsCellClear | src/lib.rs:159-170 | a tick of a following body moves no tail block onto a cell the snake did not occupy |
| Games.Respawn | src/lib.rs:316-318 | the respawn loop changes only the mouse and draws only while the mouse is on a tail block: a draw is taken only if the old mouse is on the tail, and every draw before the last is on the tail; when it finishes the mouse is on no tail block and is the last draw taken (or the old mouse if none was taken) |
| Games.Place | src/lib.rs:315-318 | `make_mice` and the respawn loop: at least one draw is taken, every draw before the last lies on a tail block, and the new mouse is the last draw taken; when finished it lies on no tail block, so it is the first draw off the tail |
| Games.Mice.New | src/lib.rs:99-101 | the mouse is a block at rest on the draw, inside the half-open box |
| Games.Mice.NewInScreen | src/lib.rs:103-105 | the mouse is at rest on the draw, and the draw is in bounds of the screen |
| Games.Eat | src/lib.rs:312-319 | the eating loop consumes draws in order and stops early only when they run out |
| Games.Frame | src/lib.rs:306-320 | a frame consumes draws in order and stops early only when they run out |
| Games.EatGrows | src/lib.rs:312-319 | the eating loop only grows the snake, by n >= 0 blocks, and n = 0 iff the head was not on the mouse |
| Games.EatScores | src/lib.rs:312-319 | the eating loop adds exactly 100 points per block grown and leaves the screen, the pause flag and the score's position alone |
| Games.EatPlacesMouse | src/lib.rs:312-319 | after the eating loop the mouse is the last draw (or untouched); when finished it is off the head, and also off the tail if a mouse was eaten |
| Games.FrameAdvances | src/lib.rs:306-320 | a paused frame changes nothing and draws nothing; otherwise the snake moves once and then grows by n blocks while the score gains 100 n |
| Games.FramePlacesMouse | src/lib.rs:306-320 | after a frame the mouse is the last draw (or untouched); a finished unpaused frame leaves it off the head, and off the tail whenever the snake grew |
| Games.FrameKeepsValid | src/lib.rs:306-320 | score = 100 x (tail length - 3), a tail of at least three blocks and the screen of `Screen::new` survive every frame |
| Games.FrameKeepsFollows | src/lib.rs:306-320 | a snake that follows its head still does after a frame |
| Games.FrameKeepsMouseClear | src/lib.rs:306-320 | for a following snake, a mouse on no block of it stays on none through a finished frame |
| Games.StartInboundIff | src/lib.rs:133-135 | the head of a new game's snake starts inside the playing box iff size_y >= 7; below that the game starts already over |
| Games.TailWrapsInPlay | src/lib.rs:68-76 | in `Game::new(9, 10)`, steering left and one move (`Snake::do_move`) leave the head at (2, 3), in bounds and not stuck, while the last tail block has wrapped to x = 65535 |
| Games.Game.constructor | src/lib.rs:288-300 | the screen of `Screen::new`, the mouse at the first draw, the snake of `Snake::new` with its head at ((size_x-3)/2, (size_y-3)/2), half the box's extent counted from 0 rather than from the box's corner, score 0 at (size_x/2, 1), not paused; the game invariant holds |
| Games.Score.New | src/lib.rs:201-203 | a new score has no points and is printed at the given cell |
| Games.Score.NewInScreen | src/lib.rs:205-207 | a new score has no points and is printed centred above the playing box, on the row of its top frame line |
| Games.Score.Inc | src/lib.rs:209-211 | one call adds exactly `SCORE_PER_MICE` = 100 points and keeps the printing position; `EatScores` counts the calls in a frame |
| Games.Game.MakeMice | src/lib.rs:302-304 | the mouse is replaced by one at rest on the draw, and nothing else changes |
| Games.Game.CalcNewFrame | src/lib.rs:306-320 | the frame computed in place is exactly `Frame` of the old game, and the game invariant is kept |
| Games.Game.EatMice | src/lib.rs:312-319 | the nested loops computed in place give exactly `Eat` of the old game |
| Games.Game.EatOne | src/lib.rs:313-318 | one eating pass (`inc`, `grow`, `make_mice`, respawn loop) gives exactly `Place` of the grown, scored game |
| Games.Game.PlaceMice | src/lib.rs:315-318 | `make_mice` and the respawn loop computed in place give exactly `Place` of the old game |
| Games.Game.SetSnakeVelocity | src/lib.rs:322-328 | while paused nothing changes; otherwise the snake is steered and nothing else changes; the game invariant is kept |
| Games.Game.SwitchPause | src/lib.rs:330-332 | only the pause flag flips, so two calls restore the game; the game invariant is kept |
| Games.Game.IsGameOver | src/lib.rs:334-336 | true iff the head is outside the playing box or some tail block lies on the head's cell |

## Left out

- Rendering is not modelled. This covers every `fmt::Display` impl, the `termion` cursor escapes and the message functions `format_message`, `get_pause_message` and `get_game_over_message` (src/lib.rs:83-92, 108-112, 184-193, 214-224, 260-277, 338-375).
- `src/main.rs` and `src/snake.rs` are not part of this model. `src/main.rs` starts a Bevy app; `src/snake.rs` is a separate Bevy version of the game (`f32` positions, a move timer, keyboard input) that does not use `src/lib.rs`.
- The random generator is not modelled as a distribution. Its answers are an explicit `draws` sequence.
  - `calc_new_frame` may ask for unboundedly many answers.
  - A frame whose draws run out is reported with `completed == false`, and nothing is claimed about such a frame's mouse placement.
- Games.Score.Inc: the `u32` score is an unbounded natural number, so the overflow of `+=` after about 43 million mice is not modelled.
- Blocks.WrappingAbs: `i16::abs(-32768)` is modelled as an optimised build computes it, returning it unchanged. A debug build panics there instead.
- Debug-build panics on `u16` underflow are preconditions:
  - `Screen::new` needs sizes of at least 1;
  - `Snake::new` needs x >= 3;
  - so `Game::new` needs size_x >= 9 for `Snake::new`.
- Blocks.Block.NewRandom: `gen_range(low, high)` panics on an empty range in every build; the model makes a draw inside a non-empty range a precondition (as do `Mice.New`, `Mice.NewInScreen` and `DrawsFit`). So `Game::new` needs size_y >= 4, since `Screen::new(sx, 3)` leaves no row to draw the first mouse from.
- `Snake::grow` unwraps the last tail block, so `Body.Grown` and `Snake.Grow` require a non-empty tail.
- The respawn loop checks only the tail, not the head, and is modelled as written. A mouse respawned onto the head is eaten by the next pass of the outer loop. So a finished frame in which no mouse was eaten promises nothing about the mouse and the tail. The mouse `Game::new` draws is never checked against the snake at all.
