/** The rules of the snake simulation as pure functions over values: what a
    collision query reports (src/main.rs:423-447), how turn requests are
    validated (src/main.rs:241-263), the move timer (src/main.rs:265-273) and
    the effect of one `Snake::update` (src/main.rs:265-302).  The classes in
    module Game are proved to behave as these functions say. */
module Rules {
  import opened Wrappers
  import opened Grid
  import opened Directions
  import opened Level
  import Arith

  /** The objects a collision query can report (`ObjectId`). */
  datatype ObjectId = SnakeHead | SnakeTail | LevelBound | Apple

  // ---------------------------------------------------------------- collisions

  /** The order in which `World::check_collision` tries the objects. */
  const Priority: seq<ObjectId> := [LevelBound, SnakeHead, SnakeTail, Apple]

  /** Object `o` is at cell `c`.  A cell that is the head counts as the head and
      not as a later segment, because the body scan stops at the head. */
  predicate Hits(o: ObjectId, c: Cell, bounds: LevelBounds, body: seq<Cell>, apple: Option<Cell>) {
    match o
    case LevelBound => !bounds.IsInside(c)
    case SnakeHead => |body| > 0 && body[0] == c
    case SnakeTail => |body| > 0 && body[0] != c && c in body[1..]
    case Apple => apple == Some(c)
  }

  /** The first object of `order`, other than the requester `id`, that is at `c`. */
  function FirstHit(order: seq<ObjectId>, id: ObjectId, c: Cell,
                    bounds: LevelBounds, body: seq<Cell>, apple: Option<Cell>): Option<ObjectId>
  {
    if order == [] then None
    else if order[0] != id && Hits(order[0], c, bounds, body, apple) then Some(order[0])
    else FirstHit(order[1..], id, c, bounds, body, apple)
  }

  /** The reported object belongs to the order, is not the requester, is at the
      cell, and no object before it in the order (other than the requester) is;
      when nothing is reported, no object of the order other than the requester is at the cell. */
  lemma {:induction false} FirstHitIsFirst(order: seq<ObjectId>, id: ObjectId, c: Cell,
                                           bounds: LevelBounds, body: seq<Cell>, apple: Option<Cell>)
    ensures match FirstHit(order, id, c, bounds, body, apple)
      case Some(o) =>
        o in order && o != id && Hits(o, c, bounds, body, apple) &&
        exists k :: 0 <= k < |order| && order[k] == o &&
          forall j :: 0 <= j < k ==> order[j] == id || !Hits(order[j], c, bounds, body, apple)
      case None =>
        forall j :: 0 <= j < |order| ==> order[j] == id || !Hits(order[j], c, bounds, body, apple)
  {
    if order != [] && !(order[0] != id && Hits(order[0], c, bounds, body, apple)) {
      FirstHitIsFirst(order[1..], id, c, bounds, body, apple);
      match FirstHit(order[1..], id, c, bounds, body, apple)
      case Some(o) =>
        var k :| 0 <= k < |order[1..]| && order[1..][k] == o &&
          forall j :: 0 <= j < k ==> order[1..][j] == id || !Hits(order[1..][j], c, bounds, body, apple);
        assert order[k + 1] == o;
        forall j | 0 <= j < k + 1
          ensures order[j] == id || !Hits(order[j], c, bounds, body, apple)
        {
          if j > 0 { assert order[j] == order[1..][j - 1]; }
        }
      case None =>
        forall j | 0 <= j < |order|
          ensures order[j] == id || !Hits(order[j], c, bounds, body, apple)
        {
          if j > 0 { assert order[j] == order[1..][j - 1]; }
        }
    } else if order != [] {
      assert order[0] in order;
    }
  }

  /** A collision query never reports the requester itself. */
  lemma {:induction false} FirstHitNotSelf(order: seq<ObjectId>, id: ObjectId, c: Cell,
                                           bounds: LevelBounds, body: seq<Cell>, apple: Option<Cell>)
    ensures FirstHit(order, id, c, bounds, body, apple) != Some(id)
  {
    if order != [] {
      FirstHitNotSelf(order[1..], id, c, bounds, body, apple);
    }
  }

  /** The priority order spelled out: wall, then head, then later segment, then food. */
  lemma PriorityCases(id: ObjectId, c: Cell, bounds: LevelBounds, body: seq<Cell>, apple: Option<Cell>)
    ensures FirstHit(Priority, id, c, bounds, body, apple) ==
      if id != LevelBound && !bounds.IsInside(c) then Some(LevelBound)
      else if id != SnakeHead && |body| > 0 && body[0] == c then Some(SnakeHead)
      else if id != SnakeTail && |body| > 0 && body[0] != c && c in body[1..] then Some(SnakeTail)
      else if id != Apple && apple == Some(c) then Some(Apple)
      else None
  {
    var order := Priority;
    assert order[0] == LevelBound && order[1..] == [SnakeHead, SnakeTail, Apple];
    var hit := FirstHit(order[1..], id, c, bounds, body, apple);
    assert FirstHit(order, id, c, bounds, body, apple) ==
      if id != LevelBound && !bounds.IsInside(c) then Some(LevelBound) else hit;
    order := order[1..];
    assert order[0] == SnakeHead && order[1..] == [SnakeTail, Apple];
    assert hit == if id != SnakeHead && |body| > 0 && body[0] == c then Some(SnakeHead)
      else FirstHit(order[1..], id, c, bounds, body, apple);
    order := order[1..];
    assert order[0] == SnakeTail && order[1..] == [Apple];
    assert FirstHit(order, id, c, bounds, body, apple) ==
      if id != SnakeTail && |body| > 0 && body[0] != c && c in body[1..] then Some(SnakeTail)
      else FirstHit(order[1..], id, c, bounds, body, apple);
    order := order[1..];
    assert order[0] == Apple && order[1..] == [];
    assert FirstHit(order, id, c, bounds, body, apple) ==
      if id != Apple && apple == Some(c) then Some(Apple) else None;
  }

  // ---------------------------------------------------------------- movement

  /** The cell one step from `c` in direction `d`; stepping up or left needs a
      coordinate of at least 1 (the source's `u32` would underflow at 0). */
  function StepCell(c: Cell, d: Direction): (r: Cell)
    requires d == Up ==> c.y >= 1
    requires d == Left ==> c.x >= 1
    ensures r != c && Distance(r, c) == 1
  {
    match d
    case Up => Cell(c.x, c.y - 1)
    case Right => Cell(c.x + 1, c.y)
    case Down => Cell(c.x, c.y + 1)
    case Left => Cell(c.x - 1, c.y)
  }

  /** Manhattan distance between two cells. */
  function Distance(a: Cell, b: Cell): nat {
    (if a.x < b.x then b.x - a.x else a.x - b.x) + (if a.y < b.y then b.y - a.y else a.y - b.y)
  }

  // ---------------------------------------------------------------- turns

  /** `move_up` / `move_right` / `move_down` / `move_left`: the request becomes the
      heading unless it is opposite to the heading of the last move. */
  function Turn(prev: Direction, current: Direction, requested: Direction): Direction {
    if !prev.IsOpposite(requested) then requested else current
  }

  /** A request is taken exactly when it is not opposite the heading of the last move;
      otherwise the heading is unchanged. */
  lemma TurnAccepts(prev: Direction, current: Direction, requested: Direction)
    ensures !prev.IsOpposite(requested) ==> Turn(prev, current, requested) == requested
    ensures prev.IsOpposite(requested) ==> Turn(prev, current, requested) == current
  {
  }

  /** Several requests applied in order within one move period. */
  function ApplyTurns(prev: Direction, current: Direction, requests: seq<Direction>): Direction
    decreases |requests|
  {
    if requests == [] then current
    else ApplyTurns(prev, Turn(prev, current, requests[0]), requests[1..])
  }

  /** Request `k` is accepted and every later request is rejected. */
  predicate LastAccepted(prev: Direction, requests: seq<Direction>, k: nat)
    requires k < |requests|
  {
    !prev.IsOpposite(requests[k]) && forall j :: k < j < |requests| ==> prev.IsOpposite(requests[j])
  }

  /** The last request that is not opposite the heading of the last move wins;
      when every request is opposite, the heading is unchanged. */
  lemma {:induction false} LastValidRequestWins(prev: Direction, current: Direction, requests: seq<Direction>)
    ensures (forall k :: 0 <= k < |requests| ==> prev.IsOpposite(requests[k])) ==>
      ApplyTurns(prev, current, requests) == current
    ensures forall k :: 0 <= k < |requests| && LastAccepted(prev, requests, k) ==>
      ApplyTurns(prev, current, requests) == requests[k]
    decreases |requests|
  {
    if requests != [] {
      var rest := requests[1..];
      var next := Turn(prev, current, requests[0]);
      LastValidRequestWins(prev, next, rest);
      forall k | 0 <= k < |requests| && LastAccepted(prev, requests, k)
        ensures ApplyTurns(prev, current, requests) == requests[k]
      {
        if k == 0 {
          assert forall j :: 0 <= j < |rest| ==> prev.IsOpposite(rest[j]) by {
            forall j | 0 <= j < |rest| ensures prev.IsOpposite(rest[j]) {
              assert rest[j] == requests[j + 1];
            }
          }
        } else {
          assert rest[k - 1] == requests[k];
          forall j | k - 1 < j < |rest| ensures prev.IsOpposite(rest[j]) {
            assert rest[j] == requests[j + 1];
          }
        }
      }
      if forall k :: 0 <= k < |requests| ==> prev.IsOpposite(requests[k]) {
        assert prev.IsOpposite(requests[0]);
        forall j | 0 <= j < |rest| ensures prev.IsOpposite(rest[j]) {
          assert rest[j] == requests[j + 1];
        }
      }
    }
  }

  /** However many requests arrive between two moves, the heading never becomes
      the reverse of the heading of the last move. */
  lemma {:induction false} NoReversal(prev: Direction, current: Direction, requests: seq<Direction>)
    requires !prev.IsOpposite(current)
    ensures !prev.IsOpposite(ApplyTurns(prev, current, requests))
    decreases |requests|
  {
    if requests != [] {
      NoReversal(prev, Turn(prev, current, requests[0]), requests[1..]);
    }
  }

  // ---------------------------------------------------------------- timer

  /** The move timer after one update of a live snake: it counts up and is reset
      to 0 on the update that moves. */
  function NextTick(tick: nat, period: nat): nat {
    if tick + 1 > period then 0 else tick + 1
  }

  /** An update of a live snake moves it exactly when the incremented timer exceeds the period. */
  predicate MovesOn(tick: nat, period: nat) {
    tick + 1 > period
  }

  /** The timer after `n` updates of a live snake, starting from 0. */
  function TickAfter(period: nat, n: nat): nat {
    if n == 0 then 0 else NextTick(TickAfter(period, n - 1), period)
  }

  /** Counting one more: the remainder goes up by one, or wraps to 0 at `m`. */
  lemma {:induction false} ModSucc(a: nat, m: nat)
    requires m > 0
    ensures (a + 1) % m == if a % m + 1 < m then a % m + 1 else 0
  {
    var q, r := a / m, a % m;
    assert a == q * m + r;
    if r + 1 < m {
      Arith.DivModUnique(a + 1, m, q, r + 1);
    } else {
      assert a + 1 == (q + 1) * m + 0;
      Arith.DivModUnique(a + 1, m, q + 1, 0);
    }
  }

  /** Starting from 0 the timer reads `n mod (period + 1)` after `n` updates,
      so the snake moves on update `n + 1` exactly when `n + 1` is a multiple
      of `period + 1`: once every `period + 1` updates, not every `period`. */
  lemma {:induction false} TimerCycle(period: nat, n: nat)
    ensures TickAfter(period, n) == n % (period + 1)
    ensures MovesOn(TickAfter(period, n), period) <==> (n + 1) % (period + 1) == 0
  {
    if n > 0 {
      TimerCycle(period, n - 1);
      ModSucc(n - 1, period + 1);
    }
    ModSucc(n, period + 1);
  }

  /** From a fresh timer the first `period` updates do not move the snake and
      update `period + 1` does; the timer then reads `period` just before it moves. */
  lemma FirstMoveAfterPeriod(period: nat, n: nat)
    requires n <= period
    ensures TickAfter(period, n) == n
    ensures MovesOn(TickAfter(period, n), period) <==> n == period
  {
    TimerCycle(period, n);
    Arith.DivModUnique(n, period + 1, 0, n);
  }

  // ---------------------------------------------------------------- one update

  /** The state of a snake, field by field (`struct Snake`). */
  datatype SnakeView = SnakeView(body: seq<Cell>, prevDirection: Direction, direction: Direction,
                                 period: nat, tick: nat, score: nat, dead: bool)

  /** Every segment lies strictly inside the walls. */
  predicate AllInside(bounds: LevelBounds, body: seq<Cell>) {
    forall i :: 0 <= i < |body| ==> bounds.IsInside(body[i])
  }

  /** A snake the world can hold: a non-empty body, inside the walls. */
  predicate Placed(v: SnakeView, bounds: LevelBounds) {
    |v.body| >= 1 && AllInside(bounds, v.body)
  }

  /** The body after the head moves to `c`: the new head in front, and the old
      body without its last segment, or the whole old body when the snake eats. */
  function MovedBody(body: seq<Cell>, c: Cell, eats: bool): seq<Cell>
    requires |body| >= 1
  {
    if eats then [c] + body else [c] + body[..|body| - 1]
  }

  /** The cell the head of `v` moves to. */
  function Target(v: SnakeView, bounds: LevelBounds): Cell
    requires Placed(v, bounds)
  {
    StepCell(v.body[0], v.direction)
  }

  /** One `Snake::update` of `v` in a world with walls `bounds` and food at `apple`. */
  function Advanced(v: SnakeView, bounds: LevelBounds, apple: Option<Cell>): SnakeView
    requires Placed(v, bounds)
  {
    if v.dead then v
    else if !MovesOn(v.tick, v.period) then v.(tick := v.tick + 1)
    else
      var c := Target(v, bounds);
      var hit := FirstHit(Priority, SnakeHead, c, bounds, v.body, apple);
      if hit == Some(LevelBound) || hit == Some(SnakeTail) then v.(tick := 0, dead := true)
      else v.(tick := 0, body := MovedBody(v.body, c, hit == Some(Apple)), prevDirection := v.direction)
  }

  /** A dead snake is left completely unchanged. */
  lemma DeadStaysDead(v: SnakeView, bounds: LevelBounds, apple: Option<Cell>)
    requires Placed(v, bounds) && v.dead
    ensures Advanced(v, bounds, apple) == v
  {
  }

  /** The timer of a live snake stays within the period; between moves only the
      timer changes, and after a move it reads 0.  Nothing but the timer, the
      body, the headings and the dead flag ever changes; the score in particular never does. */
  lemma TimerBounds(v: SnakeView, bounds: LevelBounds, apple: Option<Cell>)
    requires Placed(v, bounds) && !v.dead && v.tick <= v.period
    ensures Advanced(v, bounds, apple).tick <= v.period
    ensures v.tick < v.period ==> Advanced(v, bounds, apple) == v.(tick := v.tick + 1)
    ensures v.tick == v.period ==> Advanced(v, bounds, apple).tick == 0
    ensures Advanced(v, bounds, apple).period == v.period
    ensures Advanced(v, bounds, apple).score == v.score
    ensures Advanced(v, bounds, apple).direction == v.direction
  {
  }

  /** The timer of `Advanced` is the timer step `NextTick`, and an update that
      does not move leaves the body where it was. */
  lemma TimerLink(v: SnakeView, bounds: LevelBounds, apple: Option<Cell>)
    requires Placed(v, bounds) && !v.dead
    ensures Advanced(v, bounds, apple).tick == NextTick(v.tick, v.period)
    ensures !MovesOn(v.tick, v.period) ==> Advanced(v, bounds, apple).body == v.body
  {
  }

  /** `n` updates in a row with the food at `apple`. */
  function Updates(v: SnakeView, bounds: LevelBounds, apple: Option<Cell>, n: nat): (w: SnakeView)
    requires Placed(v, bounds)
    ensures Placed(w, bounds) && w.period == v.period
  {
    if n == 0 then v
    else
      var u := Updates(v, bounds, apple, n - 1);
      StaysInside(u, bounds, apple);
      Advanced(u, bounds, apple)
  }

  /** While the snake lives, its timer after `n` updates from a fresh timer is
      `TickAfter(period, n)`, so `TimerCycle` and `FirstMoveAfterPeriod` describe
      when the snake itself moves. */
  lemma {:induction false} TimerFollowsTickAfter(v: SnakeView, bounds: LevelBounds, apple: Option<Cell>, n: nat)
    requires Placed(v, bounds) && v.tick == 0 && !Updates(v, bounds, apple, n).dead
    ensures Updates(v, bounds, apple, n).tick == TickAfter(v.period, n)
  {
    if n > 0 {
      var u := Updates(v, bounds, apple, n - 1);
      assert !u.dead;
      TimerFollowsTickAfter(v, bounds, apple, n - 1);
      TimerLink(u, bounds, apple);
    }
  }

  /** A move into the wall or onto any segment other than the head, the current
      last segment included, kills the snake and leaves body and headings as they were. */
  lemma {:induction false} FatalMove(v: SnakeView, bounds: LevelBounds, apple: Option<Cell>)
    requires Placed(v, bounds) && !v.dead && MovesOn(v.tick, v.period)
    requires !bounds.IsInside(Target(v, bounds)) || Target(v, bounds) in v.body[1..]
    ensures Advanced(v, bounds, apple) == v.(tick := 0, dead := true)
  {
    PriorityCases(SnakeHead, Target(v, bounds), bounds, v.body, apple);
  }

  /** A move onto a free interior cell without food: the head advances one step
      in the heading, the rest of the body is the old body without its last
      segment, the length is kept and the heading becomes the committed heading. */
  lemma {:induction false} OrdinaryMove(v: SnakeView, bounds: LevelBounds, apple: Option<Cell>)
    requires Placed(v, bounds) && !v.dead && MovesOn(v.tick, v.period)
    requires bounds.IsInside(Target(v, bounds)) && Target(v, bounds) !in v.body
    requires apple != Some(Target(v, bounds))
    ensures var w := Advanced(v, bounds, apple);
      !w.dead && w.tick == 0 && |w.body| == |v.body| &&
      w.body[0] == StepCell(v.body[0], v.direction) &&
      w.body[1..] == v.body[..|v.body| - 1] &&
      w.prevDirection == v.direction && w.direction == v.direction
  {
    PriorityCases(SnakeHead, Target(v, bounds), bounds, v.body, apple);
  }

  /** A move onto the food: the body grows by exactly one, the head advances and
      the new last segment is the old last segment. */
  lemma {:induction false} GrowingMove(v: SnakeView, bounds: LevelBounds, apple: Option<Cell>)
    requires Placed(v, bounds) && !v.dead && MovesOn(v.tick, v.period)
    requires bounds.IsInside(Target(v, bounds)) && Target(v, bounds) !in v.body
    requires apple == Some(Target(v, bounds))
    ensures var w := Advanced(v, bounds, apple);
      !w.dead && |w.body| == |v.body| + 1 &&
      w.body[0] == StepCell(v.body[0], v.direction) && w.body[1..] == v.body &&
      w.body[|w.body| - 1] == v.body[|v.body| - 1] &&
      w.prevDirection == v.direction
  {
    PriorityCases(SnakeHead, Target(v, bounds), bounds, v.body, apple);
  }

  /** Every segment stays strictly inside the walls, and every segment after an
      update is a segment from before or the cell the head moved to. */
  lemma {:induction false} StaysInside(v: SnakeView, bounds: LevelBounds, apple: Option<Cell>)
    requires Placed(v, bounds)
    ensures Placed(Advanced(v, bounds, apple), bounds)
    ensures forall q :: q in Advanced(v, bounds, apple).body ==> q in v.body || q == Target(v, bounds)
  {
    var w := Advanced(v, bounds, apple);
    if !v.dead && MovesOn(v.tick, v.period) {
      var c := Target(v, bounds);
      PriorityCases(SnakeHead, c, bounds, v.body, apple);
      if !w.dead {
        assert bounds.IsInside(c);
        forall i | 0 <= i < |w.body| ensures bounds.IsInside(w.body[i]) && (w.body[i] in v.body || w.body[i] == c) {
          if i > 0 { assert w.body[i] == v.body[i - 1]; }
        }
      }
    }
  }

  /** The committed heading and the heading are never opposite, before and after an update. */
  lemma NeverReversed(v: SnakeView, bounds: LevelBounds, apple: Option<Cell>)
    requires Placed(v, bounds) && !v.prevDirection.IsOpposite(v.direction)
    ensures !Advanced(v, bounds, apple).prevDirection.IsOpposite(Advanced(v, bounds, apple).direction)
  {
    OppositeSymmetricIrreflexive(v.direction, v.direction);
  }

  // ---------------------------------------------------------------- food

  /** Cell `c` may receive the food: strictly inside and under no segment. */
  predicate Free(bounds: LevelBounds, body: seq<Cell>, c: Cell) {
    bounds.IsInside(c) && c !in body
  }

  /** Some interior cell is free, so the placement loop can end. */
  ghost predicate HasFreeCell(bounds: LevelBounds, body: seq<Cell>) {
    exists c :: Free(bounds, body, c)
  }

  /** At least two interior cells are free. */
  ghost predicate TwoFreeCells(bounds: LevelBounds, body: seq<Cell>) {
    exists a, b :: a != b && Free(bounds, body, a) && Free(bounds, body, b)
  }

  /** With two free cells before an update, one is still free after it: the
      update adds at most the one cell the head moves to.  So two free cells
      before a tick are enough for the food placement after it. */
  lemma FreeCellAfterUpdate(v: SnakeView, bounds: LevelBounds, apple: Option<Cell>)
    requires Placed(v, bounds) && TwoFreeCells(bounds, v.body)
    ensures HasFreeCell(bounds, Advanced(v, bounds, apple).body)
    ensures PlacementPossible(v, bounds, apple)
  {
    StaysInside(v, bounds, apple);
    var a, b :| a != b && Free(bounds, v.body, a) && Free(bounds, v.body, b);
    var w := Advanced(v, bounds, apple);
    if a == Target(v, bounds) {
      assert Free(bounds, w.body, b);
    } else {
      assert Free(bounds, w.body, a);
    }
  }

  /** After the update of `v`, a snake that survives either keeps its food clear of
      the head or has a free cell for new food: what `Apple::update` needs to end. */
  ghost predicate PlacementPossible(v: SnakeView, bounds: LevelBounds, apple: Option<Cell>)
    requires Placed(v, bounds)
  {
    var w := Advanced(v, bounds, apple);
    !w.dead && (apple.None? || apple.value == w.body[0]) ==> HasFreeCell(bounds, w.body)
  }

  /** What `PlacementPossible` promises about the snake after the update. */
  lemma PlacementAfter(v: SnakeView, bounds: LevelBounds, apple: Option<Cell>, w: SnakeView)
    requires Placed(v, bounds) && PlacementPossible(v, bounds, apple)
    requires w == Advanced(v, bounds, apple) && !w.dead
    ensures apple.None? || apple.value == w.body[0] ==> HasFreeCell(bounds, w.body)
  {
  }

  /** If the food is under no segment before an update that the snake survives,
      then afterwards it is under no segment unless the head has just moved onto it. */
  lemma {:induction false} FoodOffBody(v: SnakeView, bounds: LevelBounds, p: Cell)
    requires Placed(v, bounds) && p !in v.body
    requires !Advanced(v, bounds, Some(p)).dead
    ensures p != Advanced(v, bounds, Some(p)).body[0] ==> p !in Advanced(v, bounds, Some(p)).body
  {
    StaysInside(v, bounds, Some(p));
    if !v.dead && MovesOn(v.tick, v.period) {
      assert Advanced(v, bounds, Some(p)).body[0] == Target(v, bounds);
    }
  }
}
