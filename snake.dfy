/** The snake state machine: key handling, the body as a head-first
    sequence of points, growth, the wrapped one-cell move and the
    self-collision test. */
module SnakeMachine {
  import opened Geometry

  datatype Option<T> = None | Some(value: T)

  /** The characters Python's `str.isspace` accepts, which is what
      `str.strip()` removes from both ends. */
  predicate IsSpace(c: char)
  {
    || ('\t' <= c <= '\r')
    || ('\U{1C}' <= c <= '\U{1F}')
    || c == ' ' || c == '\U{85}' || c == '\U{A0}' || c == '\U{1680}'
    || ('\U{2000}' <= c <= '\U{200A}')
    || c == '\U{2028}' || c == '\U{2029}' || c == '\U{202F}' || c == '\U{205F}' || c == '\U{3000}'
  }

  /** `s` without its leading whitespace: the longest suffix of `s` that
      does not start with whitespace. */
  function StripLeft(s: string): (r: string)
    ensures |r| <= |s| && r == s[|s| - |r|..]
    ensures forall i :: 0 <= i < |s| - |r| ==> IsSpace(s[i])
    ensures r == [] || !IsSpace(r[0])
  {
    if |s| > 0 && IsSpace(s[0]) then StripLeft(s[1..]) else s
  }

  /** `s` without its trailing whitespace: the longest prefix of `s` that
      does not end in whitespace. */
  function StripRight(s: string): (r: string)
    ensures |r| <= |s| && r == s[..|r|]
    ensures forall i :: |r| <= i < |s| ==> IsSpace(s[i])
    ensures r == [] || !IsSpace(r[|r| - 1])
  {
    if |s| > 0 && IsSpace(s[|s| - 1]) then StripRight(s[..|s| - 1]) else s
  }

  /** `str.strip()` with no arguments. */
  function Strip(s: string): string
  {
    StripRight(StripLeft(s))
  }

  lemma StripIdempotent(s: string)
    ensures Strip(Strip(s)) == Strip(s)
  {
    var t := Strip(s);
    var l := StripLeft(s);
    if t != [] {
      assert t[0] == l[0];
    }
    assert StripLeft(t) == t;
    assert StripRight(t) == t;
  }

  /** `str.lower()` on one character; only ASCII letters are mapped. */
  function LowerChar(c: char): char
  {
    if 'A' <= c <= 'Z' then (c as int + 32) as char else c
  }

  function Lower(s: string): string
  {
    seq(|s|, i requires 0 <= i < |s| => LowerChar(s[i]))
  }

  /** `key.strip().lower()`, the normal form `Snake.move` compares. */
  function Normalize(key: string): string
  {
    Lower(Strip(key))
  }

  /** A key of one character (what a terminal read delivers) normalizes to
      nothing when it is whitespace and to its lower-case form otherwise. */
  lemma NormalizeOneChar(c: char)
    ensures Normalize([c]) == if IsSpace(c) then [] else [LowerChar(c)]
  {
    if IsSpace(c) {
      assert StripLeft([c]) == StripLeft([]);
    } else {
      assert StripLeft([c]) == [c];
      assert StripRight([c]) == [c];
    }
  }

  /** The `char_to_direction` table. */
  function KeyDirection(character: string): Option<Direction>
  {
    if character == "w" then Some(Up)
    else if character == "a" then Some(Left)
    else if character == "s" then Some(Down)
    else if character == "d" then Some(Right)
    else None
  }

  /** The quit key. */
  predicate IsQuit(key: string)
  {
    Normalize(key) == "q"
  }

  /** The direction after `move` has seen the normalized key `character`:
      the requested direction, unless `character` is no direction key or
      asks for the exact reverse of `current` (its vector is the negation
      of the current one). The snake therefore never turns back on itself,
      and only ever keeps its direction or takes the one the key names. */
  function Steer(current: Direction, character: string): (d: Direction)
    ensures d != Opposite(current)
    ensures d == current || KeyDirection(character) == Some(d)
  {
    match KeyDirection(character)
    case None => current
    case Some(requested) =>
      if Vector(current) != Neg(Vector(requested)) then requested else current
  }

  /** Steering in terms of the named directions: a reversal is rejected,
      any other direction key is obeyed, every other key is ignored. */
  lemma SteerCases(current: Direction, character: string)
    ensures KeyDirection(character) == None ==> Steer(current, character) == current
    ensures KeyDirection(character) == Some(Opposite(current)) ==> Steer(current, character) == current
    ensures forall d :: KeyDirection(character) == Some(d) && d != Opposite(current) ==> Steer(current, character) == d
  {
    match KeyDirection(character)
    case None =>
    case Some(requested) => ReversalIsOpposite(current, requested);
  }

  /** The quit key is no direction key, so quitting never turns the snake. */
  lemma QuitKeepsDirection(current: Direction, key: string)
    requires IsQuit(key)
    ensures Steer(current, Normalize(key)) == current
  {
  }

  /** `is_dead`: the head occurs again among the rest of the body. A snake
      of one segment is never dead. */
  function Collides(body: seq<Point>): (dead: bool)
    requires |body| > 0
    ensures dead <==> exists i :: 1 <= i < |body| && body[i] == body[0]
    ensures |body| == 1 ==> !dead
  {
    body[0] in body[1..]
  }

  /** A body without repeated cells is never dead; one whose head is
      repeated always is. */
  lemma CollidesOnlyOnRepeat(body: seq<Point>, i: int)
    requires |body| > 0
    ensures Distinct(body) ==> !Collides(body)
    ensures 1 <= i < |body| && body[i] == body[0] ==> Collides(body)
  {
  }

  /** `grow`: a new head one step ahead of the old head. */
  function Grown(body: seq<Point>, d: Direction): seq<Point>
    requires |body| > 0
  {
    [Add(body[0], Vector(d))] + body
  }

  /** The list comprehension that squashes every coordinate of the body. */
  function SquashAll(body: seq<Point>, xBounds: int, yBounds: int): seq<Point>
    requires xBounds != 0 && yBounds != 0
  {
    seq(|body|, i requires 0 <= i < |body| => Squash(body[i], xBounds, yBounds))
  }

  /** `update`: squash the body, grow once, drop the tail. The length is
      kept; the new head is the squashed old head plus the direction and is
      NOT itself squashed, so it may lie one step off the board; every
      other segment is the squashed segment in front of it, on the board
      when the bounds are positive. */
  function Updated(body: seq<Point>, d: Direction, xBounds: int, yBounds: int): (r: seq<Point>)
    requires |body| > 0 && xBounds != 0 && yBounds != 0
    ensures |r| == |body|
    ensures r[0] == Add(Squash(body[0], xBounds, yBounds), Vector(d))
    ensures forall i :: 1 <= i < |r| ==> r[i] == Squash(body[i - 1], xBounds, yBounds)
    ensures xBounds > 0 && yBounds > 0 ==> forall i :: 1 <= i < |r| ==> InBounds(r[i], xBounds, yBounds)
  {
    var grown := Grown(SquashAll(body, xBounds, yBounds), d);
    grown[..|grown| - 1]
  }

  /** The snake object: a head-first, never empty list of cells and the
      current direction. */
  class Snake {
    var coords: seq<Point>
    var direction: Direction

    ghost predicate Valid()
      reads this
    {
      |coords| > 0
    }

    /** One segment at `(x, y)`, heading in `direction`. */
    constructor (x: int, y: int, direction: Direction)
      ensures Valid()
      ensures coords == [Point(x, y)] && this.direction == direction
    {
      coords := [Point(x, y)];
      this.direction := direction;
    }

    /** Applies a key. The result is false exactly for the quit key; the
        body is left alone. */
    method Move(key: string) returns (running: bool)
      modifies this
      ensures coords == old(coords)
      ensures direction == Steer(old(direction), Normalize(key))
      ensures running <==> !IsQuit(key)
    {
      var character := Normalize(key);
      match KeyDirection(character) {
        case Some(requested) =>
          if Vector(direction) != Neg(Vector(requested)) {
            direction := requested;
          }
        case None =>
      }
      if character == "q" {
        return false;
      }
      return true;
    }

    /** Prepends the cell one step ahead of the head: one segment longer,
        the old body unchanged behind the new head. */
    method Grow()
      requires Valid()
      modifies this
      ensures Valid() && direction == old(direction)
      ensures coords == Grown(old(coords), direction)
      ensures |coords| == |old(coords)| + 1
      ensures coords[0] == Add(old(coords)[0], Vector(direction)) && coords[1..] == old(coords)
    {
      coords := [Add(coords[0], Vector(direction))] + coords;
    }

    /** One wrapped step in the current direction. */
    method Update(xBounds: int, yBounds: int)
      requires Valid() && xBounds != 0 && yBounds != 0
      modifies this
      ensures Valid() && direction == old(direction)
      ensures coords == Updated(old(coords), direction, xBounds, yBounds)
    {
      coords := SquashAll(coords, xBounds, yBounds);
      Grow();
      coords := coords[..|coords| - 1];
    }

    predicate IsDead()
      reads this
      requires Valid()
    {
      Collides(coords)
    }
  }
}
