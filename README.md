# Snake simulation core in Dafny

A model of the simulation core of a small SDL snake game written in Rust
(`src/main.rs`). A snake moves on a walled grid. It turns on arrow-key
presses, grows when it eats the food, and dies when it hits a wall or its own
body. The model covers the parts of the game that hold its logic:

- the four headings and their rotation algebra (`Directions`);
- the edge-detecting key latches (`Inputs`);
- the character screen buffer and the wall drawing (`Screen`, `Level`);
- the collision resolver and the snake's state machine. Module `Rules`
  states them as pure functions. Module `Game` holds the classes
  `Snake`, `Apple` and `World`, which update their fields in place;
- the per-tick Play / GameOver / Quit step of the main loop (`GameLoop`).

Each stateful source type is a class with the same fields. The snake's
methods and the collision resolver are proved against pure functions in
`Rules`:

- `Snake.Update` ends in exactly the state `Rules.Advanced` gives.
- `Snake.MoveUp`, `MoveRight`, `MoveDown` and `MoveLeft` change the heading
  as `Rules.Turn` gives.
- `World.CheckCollision`, which changes nothing, returns what `Rules.FirstHit`
  returns for the order wall, head, later segment, food.

The other mutating methods state their new state directly:
`Latch.Set`, `Latch.Tick`, `Input.Tick`, `Snake.Grow`, `Apple.Update`,
`ScreenBuffer.Clear`, `Print` and `LevelBounds.Draw`.

The properties of the game are then proved about those functions, and about
the invariants the classes keep:

- the body is never empty;
- every segment lies strictly inside the walls;
- the move timer never passes the period;
- the heading is never the reverse of the heading of the last move;
- when placed, the food is strictly inside the walls and, between ticks of
  play, under no segment.

Despite its name, `score` is set to 0 in `Snake::new` (src/main.rs:204) and
never changed anywhere, so the model never changes it either.

Files: `grid.dfy` (Option, Cell), `arith.dfy` (a multiplication-order fact and uniqueness of division with remainder),
`directions.dfy`, `inputs.dfy`, `screen.dfy`, `level.dfy`, `rules.dfy`,
`game.dfy`, `gameloop.dfy`.

## Model

| member | source | states |
|---|---|---|
| `Directions.Direction.ToU32` | src/main.rs:30-39 | the `u32` code of a heading is below 4 |
| `Directions.FromU32` | src/main.rs:18-28 | the heading decoded from any `u32` has the input's residue mod 4 as its code |
| `Directions.FromToU32` | src/main.rs:18-39 | encoding a heading as `u32` and decoding it gives the heading back |
| `Directions.Direction.Cw` | src/main.rs:42-45 | a clockwise turn raises the heading's code by one, mod 4 |
| `Directions.Direction.Ccw` | src/main.rs:47-50 | a counter-clockwise turn lowers the heading's code by one, mod 4: the `u32` wrap of Up to 2^32 - 1 lands on Left |
| `Directions.Direction.IsOpposite` | src/main.rs:52-59 | two headings are opposite exactly when their codes differ by 2, mod 4, taking the `u32` wrap of the subtraction into account |
| `Directions.CwCcwInverse` | src/main.rs:42-50 | `ccw(cw(d)) == d` and `cw(ccw(d)) == d` for every heading, including the wrap of Up through 2^32 - 1 under wrapping `u32` subtraction |
| `Directions.CwHasOrderFour` | src/main.rs:42-45 | four clockwise turns return to the start and one, two or three do not |
| `Directions.OppositeIsHalfTurn` | src/main.rs:52-59 | `a.is_opposite(b)` holds exactly when `b` is `cw(cw(a))` |
| `Directions.OppositeSymmetricIrreflexive` | src/main.rs:52-59 | `is_opposite` is symmetric and no heading is opposite itself |
| `Directions.OppositeUnique` | src/main.rs:52-59 | every heading has exactly one opposite |
| `Inputs.Latch.constructor` | src/main.rs:68-73 | a new latch has both states false |
| `Inputs.Latch.Set` | src/main.rs:75-77 | `set` changes `curr` to the value and leaves `prev` alone |
| `Inputs.Latch.FrontEdge` | src/main.rs:79-81 | a front edge is reported exactly when the key changed since the last tick and is now down |
| `Inputs.Latch.Tick` | src/main.rs:83-85 | `tick` copies `curr` into `prev` and leaves `curr` alone |
| `Inputs.EdgeTrace` | src/main.rs:75-85 | the latch reports one front-edge answer per tick |
| `Inputs.EdgeTraceAt` | src/main.rs:79-81 | on every tick the front edge is seen exactly when the key is down on that tick and was up on the one before |
| `Inputs.HeldKeyFiresOnce` | src/main.rs:75-85 | a key pressed and then held for several ticks gives a front edge on the first tick only |
| `Inputs.ReleasedKeyNoEdge` | src/main.rs:79-81 | a key that is up on a tick gives no front edge on it |
| `Inputs.TrackKey` | src/main.rs:75-85 | setting, reading and ticking a latch once per tick yields exactly the edge trace of the samples |
| `Inputs.Input.constructor` | src/main.rs:332-341 | six fresh, distinct, released latches |
| `Inputs.Input.Tick` | src/main.rs:343-350 | every one of the six latches ends the tick with `prev` equal to its `curr` |
| `Screen.OffsetDecodes` | src/main.rs:103-108 | the offset of an on-screen cell is inside the buffer, and mod and div by the width give its column and row back |
| `Screen.OffsetIsCell` | src/main.rs:103-108 | a buffer offset is the offset of cell (x, y) exactly when it decodes to (x, y), so distinct cells have distinct bytes |
| `Screen.ScreenBuffer.constructor` | src/main.rs:95-101 | the buffer has `width * height` bytes, all 0 |
| `Screen.ScreenBuffer.Index` | src/main.rs:103-108 | for an on-screen cell (the source asserts it) the index is in the buffer and decodes to the cell |
| `Screen.ScreenBuffer.Clear` | src/main.rs:110-114 | every byte becomes 0 |
| `Screen.Print` | src/main.rs:117-122 | the bytes from the cell's index on become the text and every other byte is unchanged |
| `Level.PaintCell` | src/main.rs:117-122 | printing the one-byte wall glyph at a cell changes exactly that cell's byte to 0xb1 |
| `Level.LevelBounds.Draw` | src/main.rs:147-162 | every byte of a cell on the border (top row, left column, bottom row, right column) becomes the wall glyph 0xb1, and every other byte is unchanged |
| `Level.LevelBounds.IsInside` | src/main.rs:147-166 | `is_inside` holds exactly for the rectangle's cells that `draw` does not paint |
| `Rules.FirstHitIsFirst` | src/main.rs:423-447 | the resolver reports an object only if it is at the cell, is not the requester, and every object earlier in the priority order either is the requester or is not at the cell; it reports nothing only if no non-requester object is at the cell |
| `Rules.FirstHitNotSelf` | src/main.rs:423-424 | a requester never collides with itself |
| `Rules.PriorityCases` | src/main.rs:423-447 | the priority list spelled out: wall (outside the interior), then head (the cell is segment 0), then tail (a later segment, not the head cell), then food, then nothing; an excluded head match falls through to the food check |
| `Rules.StepCell` | src/main.rs:276-281 | the candidate head cell is a grid neighbour of the head and never the head itself |
| `Rules.TurnAccepts` | src/main.rs:241-263 | a turn request becomes the heading when it is not opposite the heading of the last move; otherwise the heading is unchanged |
| `Rules.LastValidRequestWins` | src/main.rs:241-263 | after several requests within one move period, the heading is the last request not opposite the heading of the last move, or unchanged if every request is opposite |
| `Rules.NoReversal` | src/main.rs:241-263 | no sequence of requests within one move period turns the heading into the reverse of the heading of the last move |
| `Rules.TimerCycle` | src/main.rs:265-273 | from a fresh timer, the timer reads n mod (period + 1) after n updates, and the snake moves once every period + 1 updates |
| `Rules.FirstMoveAfterPeriod` | src/main.rs:265-273 | from a fresh timer the first `period` updates do not move the snake and update `period + 1` does |
| `Rules.TimerLink` | src/main.rs:265-273 | the timer of one update of a live snake is the timer step `NextTick`, and an update that does not move leaves the body in place |
| `Rules.Updates` | src/main.rs:265-302 | n updates in a row keep the snake inside the walls and its period unchanged |
| `Rules.TimerFollowsTickAfter` | src/main.rs:265-273 | while the snake lives, its timer after n updates from a fresh timer is `TickAfter(period, n)`, so `TimerCycle` and `FirstMoveAfterPeriod` say when the snake itself moves |
| `Rules.DeadStaysDead` | src/main.rs:265-268 | an update leaves a dead snake completely unchanged |
| `Rules.TimerBounds` | src/main.rs:265-273 | for a live snake the timer stays within the period; an update before the period only advances the timer; after a moving update the timer is 0; period, score and heading never change |
| `Rules.FatalMove` | src/main.rs:276-295 | a move outside the interior or onto any segment other than the head, including the current last segment, kills the snake and leaves body, heading and committed heading unchanged |
| `Rules.OrdinaryMove` | src/main.rs:276-300 | a move onto a free cell with no food puts the stepped head in front and drops the last segment, so the length is unchanged; the committed heading becomes the heading |
| `Rules.GrowingMove` | src/main.rs:233-300 | a move onto the food raises the length by exactly one, keeps the old last segment as the new last segment and the whole old body behind the new head |
| `Rules.StaysInside` | src/main.rs:276-300 | every segment stays strictly inside the walls, and each segment after an update is an old segment or the new head cell |
| `Rules.NeverReversed` | src/main.rs:241-300 | if the heading is not opposite the committed heading before an update, the same holds after it |
| `Rules.FreeCellAfterUpdate` | src/main.rs:364-389 | two free interior cells before an update leave at least one after it, so the food placement after that update can end |
| `Rules.FoodOffBody` | src/main.rs:377-389 | food under no segment before an update the snake survives is under no segment afterwards, or else under the new head |
| `Game.ScanFrom` | src/main.rs:218-231 | the body scan from segment i reports nothing exactly when the cell is on no segment from i on, the head exactly when it starts at segment 0 and that segment is at the cell, and the tail otherwise |
| `Game.Snake.IsCollision` | src/main.rs:218-231 | `is_collision` reports the head exactly when the cell is segment 0, the tail exactly when it is a later segment but not the head, and nothing exactly when it is on no segment |
| `Game.Snake.constructor` | src/main.rs:186-216 | the eight-segment starting body from (10, 3) to (3, 3), heading right, period 24, timer 0, score 0, alive |
| `Game.Snake.Grow` | src/main.rs:233-239 | `grow(n)` appends n copies of the last segment and changes nothing else |
| `Game.Snake.MoveUp` | src/main.rs:241-245 | the heading becomes Up unless Up is opposite the committed heading; nothing else changes |
| `Game.Snake.MoveRight` | src/main.rs:247-251 | the heading becomes Right unless Right is opposite the committed heading; nothing else changes |
| `Game.Snake.MoveDown` | src/main.rs:253-257 | the heading becomes Down unless Down is opposite the committed heading; nothing else changes |
| `Game.Snake.MoveLeft` | src/main.rs:259-263 | the heading becomes Left unless Left is opposite the committed heading; nothing else changes |
| `Game.Snake.Update` | src/main.rs:265-302 | the snake ends in exactly the state `Rules.Advanced` gives, and the world invariant is kept |
| `Game.Apple.constructor` | src/main.rs:358-362 | no food is placed |
| `Game.Apple.GenPos` | src/main.rs:364-375 | the chosen cell is strictly inside the walls and the snake's collision scan finds nothing there |
| `Game.Apple.Update` | src/main.rs:377-389 | afterwards food is placed and is not under the head; food that was not under the head stays put; food that was missing or under the head is placed anew on a free interior cell. A free cell is required only in that last case |
| `Game.World.constructor` | src/main.rs:413-421 | the world holds the given snake and walls and a fresh apple with no food placed |
| `Game.World.CheckCollision` | src/main.rs:423-447 | `check_collision` answers as the first-match resolver over the order wall, head, tail, food, and never reports the requester |
| `GameLoop.Requests` | src/main.rs:550-562 | the tick's turn requests hold each heading exactly when its key had a front edge, at most four of them |
| `GameLoop.TurnsAppend` | src/main.rs:550-562 | issuing one more turn request after several is applying them all in order |
| `GameLoop.RequestsInOrder` | src/main.rs:550-562 | applying the tick's request list in order gives the same heading as the four key checks in turn, each applied only when its key was pressed |
| `GameLoop.Steer` | src/main.rs:550-562 | after the tick's requests in the order Up, Right, Down, Left, the heading is the result of applying them in turn, nothing else changed, and the heading is not the reverse of the committed one |
| `GameLoop.PlayTick` | src/main.rs:550-569 | the snake ends as `Advanced` of the snake steered by this tick's keys; the game is over exactly when the snake is dead, in which case the food is untouched; otherwise food is placed and under no segment, and stays where it was unless it was missing or under the new head |
| `GameLoop.Feed` | src/main.rs:564-569 | after a move the snake survived, food that was under no segment before it ends placed and under no segment; food that is not under the new head stays where it was |
| `GameLoop.Decide` | src/main.rs:550-574 | in Play: steer, snake update, then GameOver if the snake is dead and a food update otherwise, which moves the food only when it was missing or eaten; in GameOver: Quit on a front edge of Escape and nothing else changes; a window close means Quit |
| `GameLoop.Step` | src/main.rs:550-576 | the tick of `Decide`, in which the food stays put unless it was missing or eaten, after which every latch is ticked |
| `GameLoop.NewGame` | src/main.rs:482-498 | the starting world is valid, inside the 30 by 20 arena, has no food yet and at least two free cells, all six latches start released so a key already down gives a front edge on the first tick, and the state is Play |
| `GameLoop.FirstMove` | src/main.rs:265-300 | for the starting snake (body (10, 3) to (3, 3), heading right, timer 24 of period 24, no food), the next update takes the head to (11, 3), drops (3, 3), keeps the length 8 and resets the timer |

## Left out

- SDL initialisation, the window, the canvas, texture loading and tile blitting (src/main.rs:450-480, src/main.rs:579-612): foreign library calls and pure rendering.
- `Snake::draw`, `Apple::draw` and the "Game over!" banner: rendering into the buffer for the display only.
- Event polling and the scancode-to-latch translation (src/main.rs:505-548): I/O. Callers set the latches with `Latch.Set`; a window-close event is the `closeRequested` flag of `GameLoop.Step`.
- `Instant` wall-clock scheduling and the `f64` periods: time and floating point. One call of `GameLoop.Step` is one logic tick. The outer loop that repeats ticks until Quit is not modelled.
- `rand::thread_rng` / `gen_range` in `Apple::gen_pos`: randomness. `Game.Apple.GenPos` chooses any cell of the same interior box that the snake does not cover. The uniform distribution is not modelled. The source's rejection loop never ends on a board with no free cell, so `GenPos` requires one.
- Abort paths: the source panics where the model has a `requires`. These are `ScreenBuffer::index`'s two asserts (src/main.rs:104-105, `Screen.ScreenBuffer.Index`), the slice past the buffer's end in `print` (src/main.rs:121, `Screen.Print`), `draw` off the screen (src/main.rs:150-161, `Level.LevelBounds.Draw`), and `unwrap` on an empty body in `grow` and `update` (src/main.rs:234, 274, `Game.Snake.Grow`, `Game.Snake.Update` and `Rules.Advanced`). The same holds for the `u32` underflow of a step Up or Left from row or column 0 (src/main.rs:277, 280, `Rules.StepCell`). `Game.World.Valid` rules out both on every reachable state. The model does not capture what happens after such a panic.
- GameLoop.Step: on a Play tick where the snake survives and the food must be placed anew, requires a free interior cell after the move (`Rules.PlacementPossible`). `GameLoop.Decide`, `GameLoop.PlayTick`, `GameLoop.Feed` and `Game.Apple.Update` require the same. The source checks no such thing; on a board with no free cell, its placement loop would spin forever. `Rules.FreeCellAfterUpdate` shows that two free cells before a tick are enough, and `GameLoop.NewGame` starts with them.
- `u32` widths of coordinates and sizes: the model uses unbounded naturals. The `u32` overflow of `x + 1`, `y + 1`, `self.x + self.width` and `y * self.width + x`, and the `u32` underflow of `self.x + self.width - 1` for a zero width, are not modelled. The wrapping arithmetic of `Direction` is modelled exactly.
- Game.Snake.Update: the `u32` underflow of `y - 1` / `x - 1` is ruled out by the world invariant that every segment is strictly inside the walls, because interior cells have coordinates of at least 1. `Game.World.constructor` therefore requires the snake to lie inside the walls. The source does not check this; it holds for the one world `main` builds.
- Level.LevelBounds.Draw: requires a width and height of at least 1. With zero width and a positive height, the source paints column x and column x - 1 (an underflow when x is 0). With zero height and a positive width, it paints rows y and y - 1 in the same way. When both are zero it paints nothing. These rectangles are not modelled.
- The `Menu` and `Pause` game states: never entered by the code.
- The score: never changed by the code, so the model never changes it.
