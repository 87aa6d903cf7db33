/** One logic tick of the main loop (src/main.rs:550-576) and the set-up
    before it (src/main.rs:482-498): the game state machine, the turn requests
    read from the arrow keys, the snake and food updates and the end-of-tick
    latch advance.  Wall-clock scheduling, event polling and rendering are
    not part of this model. */
module GameLoop {
  import opened Wrappers
  import opened Grid
  import opened Directions
  import opened Level
  import opened Inputs
  import opened Rules
  import opened Game

  /** The states the loop goes through (`GameState`; `Menu` and `Pause` are never entered). */
  datatype GameState = Play | GameOver | Quit

  /** The turn requests of one tick, in the order the loop issues them. */
  function Requests(up: bool, right: bool, down: bool, left: bool): (r: seq<Direction>)
    ensures |r| <= 4 && (Up in r <==> up) && (Right in r <==> right) && (Down in r <==> down) && (Left in r <==> left)
  {
    (if up then [Up] else []) + (if right then [Right] else []) +
    (if down then [Down] else []) + (if left then [Left] else [])
  }

  /** The turn requests of the arrow keys pressed on this tick. */
  function KeyRequests(input: Input): seq<Direction>
    reads input.up, input.right, input.down, input.left
  {
    Requests(input.up.FrontEdge(), input.right.FrontEdge(), input.down.FrontEdge(), input.left.FrontEdge())
  }

  /** The state after the window-close event of this tick, if any. */
  function AfterEvents(state: GameState, closeRequested: bool): GameState {
    if closeRequested then Quit else state
  }

  /** One logic tick.  The raw key states of the tick are already in the latches and
      `closeRequested` says whether the window was closed.  In `Play` the arrow keys
      pressed on this tick turn the snake, the snake updates, and then either the game
      is over or the food updates; in `GameOver` a fresh press of Escape quits.  Every
      latch ends the tick remembering its current state. */
  method Step(world: World, input: Input, state: GameState, closeRequested: bool) returns (next: GameState)
    requires world.Valid() && input.Valid()
    requires AfterEvents(state, closeRequested) == Play ==>
      world.FoodClear() && PlacementPossible(Steered(world.snake.View(), KeyRequests(input)), world.bounds, world.apple.pos)
    modifies world.snake, world.apple
    modifies input.escape, input.enter, input.up, input.left, input.down, input.right
    ensures world.Valid()
    ensures input.escape.prev == old(input.escape.curr) && input.escape.curr == old(input.escape.curr)
    ensures input.enter.prev == old(input.enter.curr) && input.enter.curr == old(input.enter.curr)
    ensures input.up.prev == old(input.up.curr) && input.up.curr == old(input.up.curr)
    ensures input.left.prev == old(input.left.curr) && input.left.curr == old(input.left.curr)
    ensures input.down.prev == old(input.down.curr) && input.down.curr == old(input.down.curr)
    ensures input.right.prev == old(input.right.curr) && input.right.curr == old(input.right.curr)
    ensures AfterEvents(state, closeRequested) != Play ==>
      world.snake.View() == old(world.snake.View()) && world.apple.pos == old(world.apple.pos)
    ensures AfterEvents(state, closeRequested) == Quit ==> next == Quit
    ensures AfterEvents(state, closeRequested) == GameOver ==>
      next == if old(input.escape.FrontEdge()) then Quit else GameOver
    ensures AfterEvents(state, closeRequested) == Play ==>
      var turned := Steered(old(world.snake.View()), old(KeyRequests(input)));
      world.snake.View() == Advanced(turned, world.bounds, old(world.apple.pos)) &&
      next == (if world.snake.dead then GameOver else Play) &&
      (next == GameOver ==> world.apple.pos == old(world.apple.pos)) &&
      (next == Play ==> world.apple.pos.Some? && world.FoodClear()) &&
      (next == Play && old(world.apple.pos).Some? && old(world.apple.pos).value != world.snake.body[0] ==>
         world.apple.pos == old(world.apple.pos))
  {
    next := Decide(world, input, state, closeRequested);
    input.Tick();
  }

  /** The tick before the latches advance: the state machine reads the front
      edges of this tick and updates the world. */
  method Decide(world: World, input: Input, state: GameState, closeRequested: bool) returns (next: GameState)
    requires world.Valid()
    requires AfterEvents(state, closeRequested) == Play ==>
      world.FoodClear() && PlacementPossible(Steered(world.snake.View(), KeyRequests(input)), world.bounds, world.apple.pos)
    modifies world.snake, world.apple
    ensures world.Valid()
    ensures AfterEvents(state, closeRequested) != Play ==>
      world.snake.View() == old(world.snake.View()) && world.apple.pos == old(world.apple.pos)
    ensures AfterEvents(state, closeRequested) == Quit ==> next == Quit
    ensures AfterEvents(state, closeRequested) == GameOver ==>
      next == if input.escape.FrontEdge() then Quit else GameOver
    ensures AfterEvents(state, closeRequested) == Play ==>
      var turned := Steered(old(world.snake.View()), KeyRequests(input));
      world.snake.View() == Advanced(turned, world.bounds, old(world.apple.pos)) &&
      next == (if world.snake.dead then GameOver else Play) &&
      (next == GameOver ==> world.apple.pos == old(world.apple.pos)) &&
      (next == Play ==> world.apple.pos.Some? && world.FoodClear()) &&
      (next == Play && old(world.apple.pos).Some? && old(world.apple.pos).value != world.snake.body[0] ==>
         world.apple.pos == old(world.apple.pos))
  {
    next := AfterEvents(state, closeRequested);
    if next == Play {
      var over := PlayTick(world, input);
      if over {
        next := GameOver;
      }
    } else if next == GameOver {
      if input.escape.FrontEdge() {
        next := Quit;
      }
    }
  }

  /** The snake `v` after the turn `requests` of one tick. */
  function Steered(v: SnakeView, requests: seq<Direction>): SnakeView {
    v.(direction := ApplyTurns(v.prevDirection, v.direction, requests))
  }

  /** The turn requests of one tick, in the order Up, Right, Down, Left,
      for the arrow keys pressed on this tick. */
  method Steer(snake: Snake, up: bool, right: bool, down: bool, left: bool)
    requires snake.Valid()
    modifies snake
    ensures snake.Valid()
    ensures snake.View() == Steered(old(snake.View()), Requests(up, right, down, left))
  {
    ghost var v0 := snake.View();
    if up {
      snake.MoveUp();
    }
    if right {
      snake.MoveRight();
    }
    if down {
      snake.MoveDown();
    }
    if left {
      snake.MoveLeft();
    }
    RequestsInOrder(v0.prevDirection, v0.direction, up, right, down, left);
    NoReversal(v0.prevDirection, v0.direction, Requests(up, right, down, left));
  }

  /** The heading after a request that is issued only when `pressed`. */
  function TurnIf(prev: Direction, current: Direction, pressed: bool, d: Direction): Direction {
    if pressed then Turn(prev, current, d) else current
  }

  /** A request issued when `pressed` extends the requests applied so far. */
  lemma TurnIfAppend(prev: Direction, current: Direction, done: seq<Direction>, pressed: bool, d: Direction)
    ensures ApplyTurns(prev, current, done + RequestIf(pressed, d)) ==
            TurnIf(prev, ApplyTurns(prev, current, done), pressed, d)
  {
    if pressed {
      TurnsAppend(prev, current, done, d);
    } else {
      assert done + [] == done;
    }
  }

  /** The request `d`, issued only when `pressed`. */
  function RequestIf(pressed: bool, d: Direction): seq<Direction> {
    if pressed then [d] else []
  }

  /** The tick's requests, applied in order, are the four key checks one after another. */
  lemma RequestsInOrder(prev: Direction, current: Direction, up: bool, right: bool, down: bool, left: bool)
    ensures ApplyTurns(prev, current, Requests(up, right, down, left)) ==
      TurnIf(prev, TurnIf(prev, TurnIf(prev, TurnIf(prev, current, up, Up), right, Right), down, Down), left, Left)
  {
    assert Requests(up, right, down, left) ==
      RequestIf(up, Up) + RequestIf(right, Right) + RequestIf(down, Down) + RequestIf(left, Left);
    FourRequests(prev, current, up, Up, right, Right, down, Down, left, Left);
  }

  /** Four requests, each issued only when its key is pressed, applied in turn. */
  lemma FourRequests(prev: Direction, current: Direction, p1: bool, d1: Direction, p2: bool, d2: Direction,
                     p3: bool, d3: Direction, p4: bool, d4: Direction)
    ensures ApplyTurns(prev, current, RequestIf(p1, d1) + RequestIf(p2, d2) + RequestIf(p3, d3) + RequestIf(p4, d4)) ==
      TurnIf(prev, TurnIf(prev, TurnIf(prev, TurnIf(prev, current, p1, d1), p2, d2), p3, d3), p4, d4)
  {
    var a, b, c := RequestIf(p1, d1), RequestIf(p2, d2), RequestIf(p3, d3);
    assert [] + a == a;
    TurnIfAppend(prev, current, [], p1, d1);
    TurnIfAppend(prev, current, a, p2, d2);
    TurnIfAppend(prev, current, a + b, p3, d3);
    TurnIfAppend(prev, current, a + b + c, p4, d4);
  }

  /** The `Play` branch of a tick: steer by the arrow keys pressed on this tick,
      update the snake, and, unless it died, update the food.  `over` tells whether the game is over. */
  method PlayTick(world: World, input: Input) returns (over: bool)
    requires world.Valid()
    requires world.FoodClear()
    requires PlacementPossible(Steered(world.snake.View(), KeyRequests(input)), world.bounds, world.apple.pos)
    modifies world.snake, world.apple
    ensures world.Valid()
    ensures world.snake.View() == Advanced(Steered(old(world.snake.View()), KeyRequests(input)),
                                           world.bounds, old(world.apple.pos))
    ensures over == world.snake.dead
    ensures over ==> world.apple.pos == old(world.apple.pos)
    ensures !over ==> world.apple.pos.Some? && world.FoodClear()
    ensures !over && old(world.apple.pos).Some? && old(world.apple.pos).value != world.snake.body[0] ==>
      world.apple.pos == old(world.apple.pos)
  {
    Steer(world.snake, input.up.FrontEdge(), input.right.FrontEdge(), input.down.FrontEdge(), input.left.FrontEdge());
    ghost var turned := world.snake.View();
    Snake.Update(world);
    over := world.snake.dead;
    if !over {
      Feed(world, turned);
    }
  }

  /** The food update after a move the snake survived: `turned` is the snake
      before the move and the food has not changed since. */
  method Feed(world: World, ghost turned: SnakeView)
    requires world.Valid()
    requires Placed(turned, world.bounds)
    requires world.snake.View() == Advanced(turned, world.bounds, world.apple.pos) && !world.snake.dead
    requires world.apple.pos.Some? ==> world.apple.pos.value !in turned.body
    requires PlacementPossible(turned, world.bounds, world.apple.pos)
    modifies world.apple
    ensures world.Valid() && world.apple.pos.Some? && world.FoodClear()
    ensures old(world.apple.pos).Some? && old(world.apple.pos).value != world.snake.body[0] ==>
      world.apple.pos == old(world.apple.pos)
  {
    ghost var pos := world.apple.pos;
    PlacementAfter(turned, world.bounds, pos, world.snake.View());
    if pos.Some? {
      FoodOffBody(turned, world.bounds, pos.value);
    }
    Apple.Update(world);
  }

  /** The body `Snake::new` starts with. */
  const StartBody: seq<Cell> := [Cell(10, 3), Cell(9, 3), Cell(8, 3), Cell(7, 3), Cell(6, 3), Cell(5, 3), Cell(4, 3), Cell(3, 3)]

  /** The walls of the game: a 30 by 20 rectangle at the origin. */
  const Arena: LevelBounds := LevelBounds(0, 0, 30, 20)

  /** The set-up before the first tick: fresh latches, the starting snake inside
      the 30 by 20 arena, no food yet, and the game in `Play`. */
  method NewGame() returns (world: World, input: Input, state: GameState)
    ensures world.Valid() && input.Valid() && world.FoodClear()
    ensures fresh(world) && fresh(world.snake) && fresh(world.apple)
    ensures fresh(input.escape) && fresh(input.enter) && fresh(input.up)
    ensures fresh(input.left) && fresh(input.down) && fresh(input.right)
    ensures world.bounds == Arena && world.apple.pos == None
    ensures world.snake.View() == SnakeView(StartBody, Right, Right, 24, 0, 0, false)
    ensures state == Play
    ensures TwoFreeCells(world.bounds, world.snake.body)
    ensures !input.escape.prev && !input.escape.curr && !input.enter.prev && !input.enter.curr
    ensures !input.up.prev && !input.up.curr && !input.left.prev && !input.left.curr
    ensures !input.down.prev && !input.down.curr && !input.right.prev && !input.right.curr
  {
    input := new Input();
    var snake := new Snake();
    world := new World(snake, Arena);
    state := Play;
    assert Cell(1, 1) != Cell(2, 1) && Free(Arena, StartBody, Cell(1, 1)) && Free(Arena, StartBody, Cell(2, 1));
  }

  /** The first move of a new game (update 25, when the timer reads 24, see
      `FirstMoveAfterPeriod`), with no food placed: the head leaves (10, 3) for
      (11, 3), the last segment is dropped and the length stays 8. */
  lemma FirstMove(v: SnakeView)
    requires v == SnakeView(StartBody, Right, Right, 24, 24, 0, false)
    ensures Advanced(v, Arena, None) ==
      SnakeView([Cell(11, 3), Cell(10, 3), Cell(9, 3), Cell(8, 3), Cell(7, 3), Cell(6, 3), Cell(5, 3), Cell(4, 3)],
                Right, Right, 24, 0, 0, false)
  {
    assert Placed(v, Arena) by {
      assert forall i :: 0 <= i < |StartBody| ==> StartBody[i] == Cell(10 - i, 3);
    }
    assert Target(v, Arena) == Cell(11, 3);
    assert Cell(11, 3) !in StartBody;
    OrdinaryMove(v, Arena, None);
    TimerBounds(v, Arena, None);
    var w := Advanced(v, Arena, None);
    assert w.body == [w.body[0]] + w.body[1..];
    assert StartBody[..7] == [Cell(10, 3), Cell(9, 3), Cell(8, 3), Cell(7, 3), Cell(6, 3), Cell(5, 3), Cell(4, 3)];
    assert w == SnakeView(w.body, Right, Right, 24, 0, 0, false);
  }

  /** Applying one more request after several is applying them all in order. */
  lemma {:induction false} TurnsAppend(prev: Direction, current: Direction, requests: seq<Direction>, d: Direction)
    ensures ApplyTurns(prev, current, requests + [d]) == Turn(prev, ApplyTurns(prev, current, requests), d)
    decreases |requests|
  {
    if requests != [] {
      assert (requests + [d])[1..] == requests[1..] + [d];
      TurnsAppend(prev, Turn(prev, current, requests[0]), requests[1..], d);
    }
  }
}
