/** The Snake game on a 20 x 20 board: a body of distinct cells with the
    head first, a velocity steered by the arrow keys, an apple off the body,
    and 10 points per apple eaten. */
module SnakeGame {

  const TileCount := 20

  datatype Point = Point(x: int, y: int)

  predicate OnBoard(p: Point) {
    0 <= p.x < TileCount && 0 <= p.y < TileCount
  }

  /** No cell of the body is listed twice. */
  predicate Distinct(body: seq<Point>) {
    forall i, j | 0 <= i < j < |body| :: body[i] != body[j]
  }

  /** A body the game can be in: at least the head, every cell on the board,
      no cell twice. */
  predicate SoundBody(body: seq<Point>) {
    |body| > 0 && Distinct(body) && forall i | 0 <= i < |body| :: OnBoard(body[i])
  }

  /** Standing still or one cell per tick along one axis. */
  predicate LegalVelocity(vx: int, vy: int) {
    (vx == 0 && vy == 0) || (vx == 0 && (vy == 1 || vy == -1)) || (vy == 0 && (vx == 1 || vx == -1))
  }

  // ------------------------------------------------------------- steering

  /** The four key groups of the keydown handler: arrows, WASD and wasd. */
  datatype Key = Up | Down | Left | Right

  /** The handler's rule: up and down are taken only while not moving
      vertically, left and right only while not moving horizontally. */
  function Steer(vx: int, vy: int, key: Key): (v: (int, int))
    ensures v == (vx, vy) || v in {(0, -1), (0, 1), (-1, 0), (1, 0)}
  {
    match key
    case Up => if vy == 0 then (0, -1) else (vx, vy)
    case Down => if vy == 0 then (0, 1) else (vx, vy)
    case Left => if vx == 0 then (-1, 0) else (vx, vy)
    case Right => if vx == 0 then (1, 0) else (vx, vy)
  }

  /** Steering keeps the velocity legal and never turns the snake straight
      back onto itself. */
  lemma {:induction false} SteerNeverReverses(vx: int, vy: int, key: Key)
    requires LegalVelocity(vx, vy)
    ensures LegalVelocity(Steer(vx, vy, key).0, Steer(vx, vy, key).1)
    ensures (vx, vy) != (0, 0) ==> Steer(vx, vy, key) != (-vx, -vy)
  {
  }

  /** A key is taken exactly when the snake is not moving along its axis;
      otherwise the velocity stays. */
  lemma {:induction false} SteerAccepts(vx: int, vy: int, key: Key)
    ensures key in {Up, Down} ==> (Steer(vx, vy, key) != (vx, vy) <==> vy == 0)
    ensures key in {Left, Right} ==> (Steer(vx, vy, key) != (vx, vy) <==> vx == 0)
  {
  }

  // ---------------------------------------------------------------- apple

  /** placeApple's result for the random draws `draws`: the first draw that is
      not on the body (each draw on the body makes it draw again). */
  function FirstFree(body: seq<Point>, draws: seq<Point>): (apple: Point)
    requires exists i | 0 <= i < |draws| :: draws[i] !in body
    ensures apple !in body
    ensures exists i | 0 <= i < |draws| ::
      draws[i] == apple && forall j | 0 <= j < i :: draws[j] in body
  {
    if draws[0] !in body then draws[0]
    else
      var apple := FirstFree(body, draws[1..]);
      var i :| 0 <= i < |draws[1..]| && draws[1..][i] == apple && forall j | 0 <= j < i :: draws[1..][j] in body;
      assert draws[i + 1] == apple;
      assert forall j | 0 <= j < i + 1 :: draws[j] in body by {
        forall j | 1 <= j < i + 1 ensures draws[j] in body {
          assert draws[j] == draws[1..][j - 1];
        }
      }
      apple
  }

  /** The draws the random source may produce for placeApple: cells of the
      board, at least one of them off the body, so that the redraws stop. */
  predicate CanPlace(body: seq<Point>, draws: seq<Point>) {
    (forall i | 0 <= i < |draws| :: OnBoard(draws[i])) && exists i | 0 <= i < |draws| :: draws[i] !in body
  }

  lemma {:induction false} FirstFreeOnBoard(body: seq<Point>, draws: seq<Point>)
    requires CanPlace(body, draws)
    ensures OnBoard(FirstFree(body, draws))
  {
  }

  // ----------------------------------------------------------------- tick

  /** The cell the head moves into. */
  function NextHead(body: seq<Point>, vx: int, vy: int): (h: Point)
    requires body != []
    ensures (vx, vy) == (0, 0) ==> h == body[0]
    ensures LegalVelocity(vx, vy) && (vx, vy) != (0, 0) ==> h != body[0] && (h.x == body[0].x || h.y == body[0].y)
  {
    Point(body[0].x + vx, body[0].y + vy)
  }

  /** What one update does to the body. */
  datatype Move = Crash | Slide(body: seq<Point>) | Grow(body: seq<Point>)

  /** update, as written: a head off the board or on any current cell (the
      last one included) ends the game; on the apple the snake grows,
      otherwise the last cell goes. */
  function Step(body: seq<Point>, vx: int, vy: int, apple: Point): (m: Move)
    requires body != []
    ensures m.Crash? <==> !OnBoard(NextHead(body, vx, vy)) || NextHead(body, vx, vy) in body
    ensures m.Grow? <==> !m.Crash? && NextHead(body, vx, vy) == apple
    ensures !m.Crash? ==> 0 < |m.body| <= |body| + 1 && m.body[0] == NextHead(body, vx, vy) && m.body[1..] == body[..|m.body| - 1]
  {
    var head := NextHead(body, vx, vy);
    if !OnBoard(head) || head in body then Crash
    else if head == apple then Grow([head] + body)
    else Slide([head] + body[..|body| - 1])
  }

  /** A step that does not crash keeps the body sound, moves the head one
      cell along the velocity, and drags the old body behind it: the
      length grows by one on the apple and stays the same otherwise. */
  lemma {:induction false} StepKeepsBodySound(body: seq<Point>, vx: int, vy: int, apple: Point)
    requires SoundBody(body) && LegalVelocity(vx, vy)
    ensures var m := Step(body, vx, vy, apple);
      && (m.Crash? <==> !OnBoard(NextHead(body, vx, vy)) || NextHead(body, vx, vy) in body)
      && (!m.Crash? ==>
            && SoundBody(m.body) && m.body[0] == NextHead(body, vx, vy)
            && m.body[1..] == body[..|m.body| - 1]
            && (m.Grow? <==> m.body[0] == apple)
            && |m.body| == if m.Grow? then |body| + 1 else |body|)
  {
    var head := NextHead(body, vx, vy);
    var m := Step(body, vx, vy, apple);
    if !m.Crash? {
      var b := m.body;
      assert b[1..] == body[..|b| - 1];
      forall i, j | 0 <= i < j < |b| ensures b[i] != b[j] {
        if i > 0 {
          assert b[i] == body[i - 1] && b[j] == body[j - 1];
        } else {
          assert b[j] == body[j - 1];
        }
      }
      forall i | 0 <= i < |b| ensures OnBoard(b[i]) {
        if i > 0 {
          assert b[i] == body[i - 1];
        }
      }
    }
  }

  /** As written, a snake that is not moving crashes into itself: its head
      would stay on its own first cell. The game starts like that. */
  lemma {:induction false} StandingStillCrashes(body: seq<Point>, apple: Point)
    requires body != []
    ensures Step(body, 0, 0, apple) == Crash
  {
    assert NextHead(body, 0, 0) == body[0];
  }

  /** update as evidently intended: a snake that has not been steered yet
      waits where it is. */
  function StepWhenSteered(body: seq<Point>, vx: int, vy: int, apple: Point): (m: Move)
    requires body != []
    ensures (vx, vy) == (0, 0) ==> m == Slide(body)
    ensures (vx, vy) != (0, 0) ==> m == Step(body, vx, vy, apple)
  {
    if vx == 0 && vy == 0 then Slide(body) else Step(body, vx, vy, apple)
  }

  /** With the guard no tick of a standing snake ends the game, and a moving
      snake behaves exactly as before. */
  lemma {:induction false} StandingSnakeWaits(body: seq<Point>, vx: int, vy: int, apple: Point)
    requires SoundBody(body) && LegalVelocity(vx, vy)
    ensures var m := StepWhenSteered(body, vx, vy, apple);
      && ((vx, vy) == (0, 0) ==> !m.Crash? && m.body == body)
      && (!m.Crash? ==> SoundBody(m.body))
  {
    if (vx, vy) != (0, 0) {
      StepKeepsBodySound(body, vx, vy, apple);
    }
  }

  // ----------------------------------------------------------------- game

  /** The game object. `over` records that gameOver cleared the update timer. */
  class Snake {
    var body: seq<Point>
    var vx: int
    var vy: int
    var apple: Point
    var score: int
    var over: bool

    ghost predicate Valid()
      reads this
    {
      && SoundBody(body)
      && LegalVelocity(vx, vy)
      && OnBoard(apple) && apple !in body
      && score == 10 * (|body| - 1)
    }

    /** Construction: init runs resetGame and starts the update timer. */
    constructor (draws: seq<Point>)
      requires CanPlace([Point(10, 10)], draws)
      ensures Valid()
      ensures body == [Point(10, 10)] && vx == 0 && vy == 0 && score == 0 && !over
      ensures apple == FirstFree([Point(10, 10)], draws)
    {
      body := [Point(10, 10)];
      vx, vy := 0, 0;
      score := 0;
      over := false;
      new;
      PlaceApple(draws);
      FirstFreeOnBoard(body, draws);
    }

    /** The loop over the segments shared by update and placeApple. */
    method OnSnake(p: Point) returns (hit: bool)
      ensures hit <==> p in body
    {
      hit := false;
      for i := 0 to |body|
        invariant !hit <==> p !in body[..i]
      {
        if body[i] == p {
          return true;
        }
      }
      assert body[..|body|] == body;
    }

    /** placeApple: draw a cell, and draw again while it is on the body. */
    method PlaceApple(draws: seq<Point>)
      requires exists i | 0 <= i < |draws| :: draws[i] !in body
      modifies this`apple
      ensures apple == FirstFree(body, draws)
      decreases |draws|
    {
      apple := draws[0];
      var onBody := OnSnake(apple);
      if onBody {
        var i :| 0 <= i < |draws| && draws[i] !in body;
        assert draws[1..][i - 1] == draws[i];
        PlaceApple(draws[1..]);
      }
    }

    /** resetGame: the one-cell snake at (10, 10), standing still, no score,
        and a fresh apple. */
    method ResetGame(draws: seq<Point>)
      requires CanPlace([Point(10, 10)], draws)
      modifies this`body, this`vx, this`vy, this`score, this`apple
      ensures Valid()
      ensures body == [Point(10, 10)] && vx == 0 && vy == 0 && score == 0
      ensures apple == FirstFree([Point(10, 10)], draws)
    {
      body := [Point(10, 10)];
      vx, vy := 0, 0;
      score := 0;
      PlaceApple(draws);
      FirstFreeOnBoard(body, draws);
    }

    /** restart: stop the old timer, reset, start a new timer. */
    method Restart(draws: seq<Point>)
      requires CanPlace([Point(10, 10)], draws)
      modifies this
      ensures Valid()
      ensures body == [Point(10, 10)] && vx == 0 && vy == 0 && score == 0 && !over
      ensures apple == FirstFree([Point(10, 10)], draws)
    {
      ResetGame(draws);
      over := false;
    }

    /** The keydown handler for one key group. */
    method Turn(key: Key)
      requires Valid()
      modifies this`vx, this`vy
      ensures Valid()
      ensures (vx, vy) == Steer(old(vx), old(vy), key)
    {
      match key
      case Up =>
        if vy == 0 {
          vx, vy := 0, -1;
        }
      case Down =>
        if vy == 0 {
          vx, vy := 0, 1;
        }
      case Left =>
        if vx == 0 {
          vx, vy := -1, 0;
        }
      case Right =>
        if vx == 0 {
          vx, vy := 1, 0;
        }
    }

    /** update, run by the timer until the game is over. */
    method Tick(draws: seq<Point>) returns (crashed: bool)
      requires Valid()
      requires NextHead(body, vx, vy) == apple ==> CanPlace([apple] + body, draws)
      modifies this`body, this`score, this`apple, this`over
      ensures Valid()
      ensures old(over) ==> !crashed && body == old(body) && score == old(score) && apple == old(apple) && over
      ensures !old(over) ==> match Step(old(body), vx, vy, old(apple))
        case Crash => crashed && over && body == old(body) && score == old(score) && apple == old(apple)
        case Slide(b) => !crashed && !over && body == b && score == old(score) && apple == old(apple)
        case Grow(b) =>
          && !crashed && !over && body == b && score == old(score) + 10
          && apple == FirstFree(b, draws) && apple != old(apple)
    {
      if over {
        return false;
      }
      var head := Point(body[0].x + vx, body[0].y + vy);
      if head.x < 0 || head.x >= TileCount || head.y < 0 || head.y >= TileCount {
        over := true;
        return true;
      }
      var hit := OnSnake(head);
      if hit {
        over := true;
        return true;
      }
      StepKeepsBodySound(body, vx, vy, apple);
      ghost var before := body;
      body := [head] + body;
      if head == apple {
        score := score + 10;
        PlaceApple(draws);
        FirstFreeOnBoard(body, draws);
      } else {
        body := body[..|body| - 1];
        assert apple !in body by {
          assert forall i | 1 <= i < |body| :: body[i] == before[i - 1];
        }
      }
      crashed := false;
    }
  }
}
