/** The snake, the food and the world that holds them (src/main.rs:169-302,
    src/main.rs:353-448).  Each class keeps the fields the source updates in
    place; the rules they follow are the functions of module Rules. */
module Game {
  import opened Wrappers
  import opened Grid
  import opened Directions
  import opened Level
  import opened Rules

  /** What the body scan of `Snake::is_collision` finds at a cell. */
  datatype SnakeCollision = Head | Tail

  /** `n` copies of `c`. */
  function Repeat(c: Cell, n: nat): (r: seq<Cell>)
    ensures |r| == n && forall i :: 0 <= i < n ==> r[i] == c
  {
    if n == 0 then [] else Repeat(c, n - 1) + [c]
  }

  /** The scan of `Snake::is_collision` from segment `i` on: the first segment at
      `c` is reported, as the head when it is segment 0 and as the tail otherwise. */
  function ScanFrom(body: seq<Cell>, c: Cell, i: nat): (r: Option<SnakeCollision>)
    requires i <= |body|
    ensures r == None <==> c !in body[i..]
    ensures r == Some(Head) <==> i == 0 && |body| > 0 && body[0] == c
    ensures r == Some(Tail) <==> c in body[i..] && !(i == 0 && body[0] == c)
    decreases |body| - i
  {
    if i == |body| then None
    else if body[i] == c then (if i == 0 then Some(Head) else Some(Tail))
    else
      assert body[i..] == [body[i]] + body[i + 1..];
      ScanFrom(body, c, i + 1)
  }

  class Snake {
    var body: seq<Cell>
    var prevDirection: Direction
    var direction: Direction
    var period: nat
    var tick: nat
    var score: nat
    var dead: bool

    /** The body is never empty, the timer never passes the period, and the
        heading is never the reverse of the heading of the last move. */
    ghost predicate Valid()
      reads this
    {
      |body| >= 1 && tick <= period && !prevDirection.IsOpposite(direction)
    }

    /** All fields as one value. */
    function View(): SnakeView
      reads this
    {
      SnakeView(body, prevDirection, direction, period, tick, score, dead)
    }

    /** Eight segments on row 3 from (10, 3) back to (3, 3), heading right, moving every 25 updates. */
    constructor ()
      ensures Valid()
      ensures body == [Cell(10, 3), Cell(9, 3), Cell(8, 3), Cell(7, 3), Cell(6, 3), Cell(5, 3), Cell(4, 3), Cell(3, 3)]
      ensures prevDirection == Right && direction == Right
      ensures period == 24 && tick == 0 && score == 0 && !dead
    {
      body := [Cell(10, 3), Cell(9, 3), Cell(8, 3), Cell(7, 3), Cell(6, 3), Cell(5, 3), Cell(4, 3), Cell(3, 3)];
      prevDirection := Right;
      direction := Right;
      period := 24;
      tick := 0;
      score := 0;
      dead := false;
      OppositeSymmetricIrreflexive(Right, Right);
    }

    /** Whether cell `c` is the head, a later segment, or free of the snake. */
    function IsCollision(c: Cell): (r: Option<SnakeCollision>)
      reads this
      ensures r == Some(Head) <==> |body| > 0 && body[0] == c
      ensures r == Some(Tail) <==> |body| > 0 && body[0] != c && c in body[1..]
      ensures r == None <==> c !in body
    {
      assert |body| > 0 ==> body == [body[0]] + body[1..];
      ScanFrom(body, c, 0)
    }

    /** Append `n` copies of the last segment; they unfold as the snake moves on. */
    method Grow(n: nat)
      requires |body| >= 1
      modifies this
      ensures body == old(body) + Repeat(old(body[|body| - 1]), n)
      ensures prevDirection == old(prevDirection) && direction == old(direction)
      ensures period == old(period) && tick == old(tick) && score == old(score) && dead == old(dead)
    {
      var back := body[|body| - 1];
      var i := 0;
      while i < n
        invariant 0 <= i <= n
        invariant body == old(body) + Repeat(back, i)
        invariant prevDirection == old(prevDirection) && direction == old(direction)
        invariant period == old(period) && tick == old(tick) && score == old(score) && dead == old(dead)
      {
        body := body + [back];
        i := i + 1;
      }
    }

    method MoveUp()
      modifies this
      ensures View() == old(View()).(direction := Turn(old(prevDirection), old(direction), Up))
    {
      if !prevDirection.IsOpposite(Up) {
        direction := Up;
      }
    }

    method MoveRight()
      modifies this
      ensures View() == old(View()).(direction := Turn(old(prevDirection), old(direction), Right))
    {
      if !prevDirection.IsOpposite(Right) {
        direction := Right;
      }
    }

    method MoveDown()
      modifies this
      ensures View() == old(View()).(direction := Turn(old(prevDirection), old(direction), Down))
    {
      if !prevDirection.IsOpposite(Down) {
        direction := Down;
      }
    }

    method MoveLeft()
      modifies this
      ensures View() == old(View()).(direction := Turn(old(prevDirection), old(direction), Left))
    {
      if !prevDirection.IsOpposite(Left) {
        direction := Left;
      }
    }

    /** `Snake::update`: one step of the snake of `world`, as `Advanced` describes it. */
    static method Update(world: World)
      requires world.Valid()
      modifies world.snake
      ensures world.Valid()
      ensures world.snake.View() == Advanced(old(world.snake.View()), world.bounds, old(world.apple.pos))
    {
      var snake := world.snake;
      ghost var v := snake.View();
      StaysInside(v, world.bounds, world.apple.pos);
      NeverReversed(v, world.bounds, world.apple.pos);
      if snake.dead {
        return;
      }
      snake.tick := snake.tick + 1;
      if snake.tick > snake.period {
        snake.tick := 0;
        var head := snake.body[0];
        var c := StepCell(head, snake.direction);
        var objectId := world.CheckCollision(SnakeHead, c);
        if objectId == Some(LevelBound) {
          snake.dead := true;
        } else if objectId == Some(SnakeTail) {
          snake.dead := true;
        } else if objectId == Some(Apple) {
          snake.Grow(1);
        }
        if snake.dead {
          return;
        }
        snake.body := [c] + snake.body;
        snake.body := snake.body[..|snake.body| - 1];
        snake.prevDirection := snake.direction;
        assert snake.body == MovedBody(v.body, c, objectId == Some(Apple));
      }
    }
  }

  class Apple {
    var pos: Option<Cell>

    /** No food until the first update places it. */
    constructor ()
      ensures pos == None
    {
      pos := None;
    }

    /** `Apple::gen_pos`: a cell of the interior box that the snake does not
        cover.  The random rejection loop is modelled as a choice among those
        cells; the source's loop runs forever when there is none. */
    static method GenPos(snake: Snake, bounds: LevelBounds) returns (c: Cell)
      requires HasFreeCell(bounds, snake.body)
      ensures bounds.IsInside(c) && snake.IsCollision(c) == None
    {
      ghost var w :| Free(bounds, snake.body, w);
      assert bounds.x + 1 <= w.x < bounds.x + bounds.width - 1 && bounds.y + 1 <= w.y < bounds.y + bounds.height - 1;
      var x: nat, y: nat :| bounds.x + 1 <= x < bounds.x + bounds.width - 1 &&
                            bounds.y + 1 <= y < bounds.y + bounds.height - 1 &&
                            snake.IsCollision(Cell(x, y)) == None;
      c := Cell(x, y);
    }

    /** `Apple::update`: place the food when there is none, and place it anew
        when it lies under the snake's head; otherwise it stays put.  A free
        cell is needed only when the food is placed. */
    static method Update(world: World)
      requires world.Valid() && world.CanPlaceFood()
      modifies world.apple
      ensures world.Valid()
      ensures world.apple.pos.Some?
      ensures world.apple.pos.value != world.snake.body[0]
      ensures old(world.apple.pos).Some? && old(world.apple.pos).value != world.snake.body[0] ==>
        world.apple.pos == old(world.apple.pos)
      ensures old(world.apple.pos).None? || old(world.apple.pos).value == world.snake.body[0] ==>
        Free(world.bounds, world.snake.body, world.apple.pos.value)
    {
      var apple := world.apple;
      if apple.pos == None {
        var c := GenPos(world.snake, world.bounds);
        apple.pos := Some(c);
      }
      if apple.pos.Some? {
        var p := apple.pos.value;
        var objectId := world.CheckCollision(Apple, p);
        PriorityCases(Apple, p, world.bounds, world.snake.body, apple.pos);
        if objectId == Some(SnakeHead) {
          var c := GenPos(world.snake, world.bounds);
          apple.pos := Some(c);
        }
      }
    }
  }

  class World {
    const snake: Snake
    const bounds: LevelBounds
    const apple: Apple

    /** The snake is valid and lies strictly inside the walls, and so does the food once placed. */
    ghost predicate Valid()
      reads snake, apple
    {
      snake.Valid() && AllInside(bounds, snake.body) &&
      (apple.pos.Some? ==> bounds.IsInside(apple.pos.value))
    }

    /** The food is not placed yet or lies under no segment. */
    ghost predicate FoodClear()
      reads snake, apple
    {
      apple.pos.None? || apple.pos.value !in snake.body
    }

    /** When the food has to be placed, because there is none or it lies under
        the head, some interior cell is free, so `gen_pos` can end. */
    ghost predicate CanPlaceFood()
      reads snake, apple
    {
      apple.pos.None? || (|snake.body| > 0 && apple.pos.value == snake.body[0]) ==>
        HasFreeCell(bounds, snake.body)
    }

    /** A world around `snake` inside `bounds`, with no food placed yet. */
    constructor (snake: Snake, bounds: LevelBounds)
      requires snake.Valid() && AllInside(bounds, snake.body)
      ensures Valid() && FoodClear()
      ensures this.snake == snake && this.bounds == bounds
      ensures fresh(apple) && apple.pos == None
    {
      this.snake := snake;
      this.bounds := bounds;
      apple := new Apple();
    }

    /** `World::check_collision`: the first object, in the order wall, head,
        later segment, food, that is at `c` and is not the requester `id`. */
    function CheckCollision(id: ObjectId, c: Cell): (r: Option<ObjectId>)
      reads snake, apple
      ensures r == FirstHit(Priority, id, c, bounds, snake.body, apple.pos)
      ensures r != Some(id)
    {
      PriorityCases(id, c, bounds, snake.body, apple.pos);
      FirstHitNotSelf(Priority, id, c, bounds, snake.body, apple.pos);
      if id != LevelBound && !bounds.IsInside(c) then Some(LevelBound)
      else
        var snakeCollision := snake.IsCollision(c);
        if snakeCollision.Some? && id != SnakeHead && snakeCollision.value == Head then Some(SnakeHead)
        else if snakeCollision.Some? && id != SnakeTail && snakeCollision.value == Tail then Some(SnakeTail)
        else if id != Apple && apple.pos == Some(c) then Some(Apple)
        else None
    }
  }
}
