/** One tick of the game loop in `main`, with the terminal I/O removed:
    the key read is a parameter, the random apple choice is an index, and
    the win exit is an outcome. */
module Game {
  import opened Geometry
  import opened SnakeMachine
  import opened ApplePlacement

  /** The board `main` plays on and where the snake starts. */
  const X_BOUNDS := 30
  const Y_BOUNDS := 20

  /** How a tick ends: play goes on, the snake was found dead (the loop
      breaks), the quit key was read (the loop stops after this tick), or
      the board is full (the process exits). */
  datatype Outcome = Continue | Dead | Quit | Won

  /** The state the loop carries: snake body and direction, apple, score. */
  datatype GameState = GameState(body: seq<Point>, direction: Direction, apple: Point, score: int)

  /** `is_running = snake.move(key)` for a key that is present and
      non-empty; anything else leaves the direction and keeps running. */
  function ApplyKey(direction: Direction, key: Option<string>): (Direction, bool)
  {
    if key.Some? && key.value != "" then
      (Steer(direction, Normalize(key.value)), !IsQuit(key.value))
    else
      (direction, true)
  }

  /** Only the quit key stops the loop, and the key never reverses the
      snake. */
  lemma ApplyKeyEffect(direction: Direction, key: Option<string>)
    ensures !ApplyKey(direction, key).1 <==> key.Some? && IsQuit(key.value)
    ensures ApplyKey(direction, key).0 != Opposite(direction)
  {
    if key.Some? && IsQuit(key.value) {
      assert Normalize("") == "";
      assert key.value != "";
    }
  }

  /** The eat check: when the head is on the apple, one point more, one
      extra segment, and a new placement for the grown snake; otherwise
      nothing changes and the apple stays. */
  function EatCheck(xBounds: int, yBounds: int, s: GameState, pick: nat): (GameState, Placement)
    requires |s.body| > 0
  {
    if s.body[0] == s.apple then
      var body := Grown(s.body, s.direction);
      (GameState(body, s.direction, s.apple, s.score + 1), NewAppleLocation(xBounds, yBounds, body, pick))
    else
      (s, Apple(s.apple))
  }

  /** The key, then the wrapped move. */
  function Advance(xBounds: int, yBounds: int, s: GameState, key: Option<string>): (GameState, Outcome)
    requires |s.body| > 0 && xBounds != 0 && yBounds != 0
  {
    var (direction, running) := ApplyKey(s.direction, key);
    (GameState(Updated(s.body, direction, xBounds, yBounds), direction, s.apple, s.score),
     if running then Continue else Quit)
  }

  /** The loop body after drawing: the death check, the eat check (which
      may end the game with a win), then the key and the move. */
  function Step(xBounds: int, yBounds: int, s: GameState, key: Option<string>, pick: nat): (GameState, Outcome)
    requires |s.body| > 0 && xBounds != 0 && yBounds != 0
  {
    if Collides(s.body) then (s, Dead)
    else
      var (fed, placed) := EatCheck(xBounds, yBounds, s, pick);
      if placed.Win? then (fed, Won)
      else Advance(xBounds, yBounds, fed.(apple := placed.location), key)
  }

  /** A dead snake ends the loop with nothing changed. */
  lemma TickDead(xBounds: int, yBounds: int, s: GameState, key: Option<string>, pick: nat)
    requires |s.body| > 0 && xBounds != 0 && yBounds != 0
    ensures Step(xBounds, yBounds, s, key, pick).1 == Dead <==> Collides(s.body)
    ensures Collides(s.body) ==> Step(xBounds, yBounds, s, key, pick).0 == s
  {
  }

  /** Eating: the score goes up by one and the snake by one segment; the
      game is won exactly when the grown snake covers the board, and
      otherwise the new apple is on the board and off the grown snake. */
  lemma TickEats(xBounds: int, yBounds: int, s: GameState, key: Option<string>, pick: nat)
    requires |s.body| > 0 && xBounds != 0 && yBounds != 0
    requires !Collides(s.body) && s.body[0] == s.apple
    ensures var (t, outcome) := Step(xBounds, yBounds, s, key, pick);
      && t.score == s.score + 1
      && |t.body| == |s.body| + 1
      && (outcome == Won <==> forall p :: InBounds(p, xBounds, yBounds) ==> p in Grown(s.body, s.direction))
      && (outcome != Won ==> InBounds(t.apple, xBounds, yBounds) && t.apple !in Grown(s.body, s.direction))
  {
  }

  /** Not eating: score and apple stay, the length is unchanged, and the
      game cannot be won in this tick. */
  lemma TickWithoutEating(xBounds: int, yBounds: int, s: GameState, key: Option<string>, pick: nat)
    requires |s.body| > 0 && xBounds != 0 && yBounds != 0
    requires !Collides(s.body) && s.body[0] != s.apple
    ensures var (t, outcome) := Step(xBounds, yBounds, s, key, pick);
      && outcome != Won && outcome != Dead
      && t.score == s.score && t.apple == s.apple
      && |t.body| == |s.body|
  {
  }

  /** A tick that moves the snake ends in `Quit` exactly when the key read
      was the quit key; the snake never reverses, keeps a non-empty body,
      and every segment behind the head is on the board. */
  lemma TickMoves(xBounds: int, yBounds: int, s: GameState, key: Option<string>, pick: nat)
    requires |s.body| > 0 && xBounds > 0 && yBounds > 0
    requires Step(xBounds, yBounds, s, key, pick).1 in {Continue, Quit}
    ensures var (t, outcome) := Step(xBounds, yBounds, s, key, pick);
      && (outcome == Quit <==> key.Some? && IsQuit(key.value))
      && t.direction != Opposite(s.direction)
      && |t.body| > 0
      && (forall i :: 1 <= i < |t.body| ==> InBounds(t.body[i], xBounds, yBounds))
  {
    var (fed, placed) := EatCheck(xBounds, yBounds, s, pick);
    var moved := fed.(apple := placed.location);
    ApplyKeyEffect(s.direction, key);
    assert Step(xBounds, yBounds, s, key, pick) == Advance(xBounds, yBounds, moved, key);
  }

  /** The first tick of a fresh game with no key pressed and the apple
      elsewhere: one segment, one row further down, still alive. */
  lemma FirstTickScenario(apple: Point, pick: nat)
    requires apple != Point(15, 10)
    ensures var (t, outcome) := Step(X_BOUNDS, Y_BOUNDS, GameState([Point(15, 10)], Down, apple, 0), None, pick);
      && outcome == Continue
      && t == GameState([Point(15, 11)], Down, apple, 0)
      && !Collides(t.body)
  {
    SquashFixesInBounds(Point(15, 10), X_BOUNDS, Y_BOUNDS);
  }

  /** Pressing `w` while heading down is a reversal and is ignored. */
  lemma ReverseKeyScenario()
    ensures ApplyKey(Down, Some("w")) == (Down, true)
  {
    NormalizeOneChar('w');
  }

  /** The head is not squashed after the move, so a snake heading left
      from column 0 stands at column -1 for one tick and then at the last
      column but one: an apple in the last column of that row is passed
      over without being eaten. */
  lemma EdgeAppleScenario()
    ensures var s0 := GameState([Point(0, 5)], Left, Point(29, 5), 0);
      var (s1, o1) := Step(X_BOUNDS, Y_BOUNDS, s0, None, 0);
      var (s2, o2) := Step(X_BOUNDS, Y_BOUNDS, s1, None, 0);
      && s1.body == [Point(-1, 5)] && o1 == Continue
      && s2.body == [Point(28, 5)] && o2 == Continue
      && s2.score == 0 && s2.apple == Point(29, 5)
  {
    SquashFixesInBounds(Point(0, 5), X_BOUNDS, Y_BOUNDS);
    assert PyMod(-1, X_BOUNDS) == 29;
  }

  /** Apple placement avoids the snake, yet a snake of two segments can
      still come to lie on the apple: heading left from column 0 it passes
      the apple in the last column without eating it, and two ticks later
      its second segment covers the apple. */
  lemma CoverScenario()
    ensures var s0 := GameState([Point(0, 5), Point(1, 5)], Left, Point(29, 5), 0);
      var (s1, o1) := Step(X_BOUNDS, Y_BOUNDS, s0, None, 0);
      var (s2, o2) := Step(X_BOUNDS, Y_BOUNDS, s1, None, 0);
      && s0.apple !in s0.body
      && s1.body == [Point(-1, 5), Point(0, 5)] && o1 == Continue
      && s2.body == [Point(28, 5), Point(29, 5)] && o2 == Continue
      && s2.score == 0 && s2.apple == Point(29, 5) && s2.apple in s2.body
  {
    SquashFixesInBounds(Point(0, 5), X_BOUNDS, Y_BOUNDS);
    SquashFixesInBounds(Point(1, 5), X_BOUNDS, Y_BOUNDS);
    assert PyMod(-1, X_BOUNDS) == 29;
  }

  /** The start of `main`: a one-segment snake in the middle of the board
      heading down, score 0, and an apple on a free cell; the board is far
      from full, so the start never triggers the win exit. */
  method Start(pick: nat) returns (snake: Snake, apple: Point, score: int)
    ensures fresh(snake) && snake.Valid()
    ensures snake.coords == [Point(X_BOUNDS / 2, Y_BOUNDS / 2)] && snake.direction == Down
    ensures NewAppleLocation(X_BOUNDS, Y_BOUNDS, snake.coords, pick) == Apple(apple)
    ensures InBounds(apple, X_BOUNDS, Y_BOUNDS) && apple !in snake.coords
    ensures score == 0
  {
    snake := new Snake(X_BOUNDS / 2, Y_BOUNDS / 2, Down);
    var placed := NewAppleLocation(X_BOUNDS, Y_BOUNDS, snake.coords, pick);
    assert InBounds(Point(0, 0), X_BOUNDS, Y_BOUNDS) && Point(0, 0) !in snake.coords;
    apple := placed.location;
    score := 0;
  }

  /** One pass of the loop on the snake object, in the order `main` does
      it; the new state and outcome are those of `Step`. */
  method Tick(xBounds: int, yBounds: int, snake: Snake, apple: Point, score: int, key: Option<string>, pick: nat)
    returns (outcome: Outcome, newApple: Point, newScore: int)
    requires snake.Valid() && xBounds != 0 && yBounds != 0
    modifies snake
    ensures snake.Valid()
    ensures (GameState(snake.coords, snake.direction, newApple, newScore), outcome)
      == Step(xBounds, yBounds, GameState(old(snake.coords), old(snake.direction), apple, score), key, pick)
  {
    ghost var s0 := GameState(snake.coords, snake.direction, apple, score);
    newApple, newScore := apple, score;
    if snake.IsDead() {
      return Dead, newApple, newScore;
    }
    ghost var (fed, placed) := EatCheck(xBounds, yBounds, s0, pick);
    if snake.coords[0] == apple {
      newScore := newScore + 1;
      snake.Grow();
      var placement := NewAppleLocation(xBounds, yBounds, snake.coords, pick);
      assert placement == placed;
      if placement.Win? {
        return Won, newApple, newScore;
      }
      newApple := placement.location;
    }
    ghost var moving := fed.(apple := newApple);
    assert Step(xBounds, yBounds, s0, key, pick) == Advance(xBounds, yBounds, moving, key);
    assert moving == GameState(snake.coords, snake.direction, newApple, newScore);
    var running := true;
    if key.Some? && key.value != "" {
      running := snake.Move(key.value);
    }
    snake.Update(xBounds, yBounds);
    outcome := if running then Continue else Quit;
  }
}
