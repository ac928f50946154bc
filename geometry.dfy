/** Integer points on the board, Python's modulo, toroidal wrap-around
    ("squash") and the four unit direction vectors. */
module Geometry {

  /** An immutable integer pair; equality is structural. */
  datatype Point = Point(x: int, y: int)

  const Origin := Point(0, 0)

  /** Componentwise vector sum. */
  function Add(p: Point, q: Point): Point
  {
    Point(p.x + q.x, p.y + q.y)
  }

  /** Componentwise negation: the additive inverse of `p`. */
  function Neg(p: Point): Point
  {
    Point(-p.x, -p.y)
  }

  /** Documents the point type: `Neg` undoes itself and cancels `Add`. */
  lemma NegInverse(p: Point)
    ensures Add(p, Neg(p)) == Origin && Add(Neg(p), p) == Origin
    ensures Neg(Neg(p)) == p
    ensures Neg(p) == p <==> p == Origin
  {
  }

  /** Documents the point type: the order of the operands of `Add` does
      not matter. */
  lemma AddCommutative(p: Point, q: Point)
    ensures Add(p, q) == Add(q, p)
  {
  }

  /** Python's `a // n`: floor division. Division by zero raises in Python,
      so `n != 0`. Dafny's `/` is already floor division for a positive
      divisor. */
  function PyFloorDiv(a: int, n: int): int
    requires n != 0
  {
    if n > 0 then a / n else (-a) / (-n)
  }

  /** Python's `a % n`: the remainder of floor division, which takes the
      sign of the divisor, so that `a == n * (a // n) + a % n`. */
  function PyMod(a: int, n: int): (r: int)
    requires n != 0
    ensures n > 0 ==> 0 <= r < n
    ensures n < 0 ==> n < r <= 0
    ensures a == n * PyFloorDiv(a, n) + r
  {
    if n > 0 then a % n else -((-a) % (-n))
  }

  /** The only multiple of a positive `n` strictly between `-n` and `n` is 0. */
  lemma SmallMultipleIsZero(n: int, d: int)
    requires n > 0 && -n < n * d < n
    ensures d == 0
  {
  }

  /** For a positive divisor the remainder is determined by its range and
      its congruence class: any `q, r` with `a == n * q + r` and
      `0 <= r < n` are Python's quotient and remainder. */
  lemma PyModUnique(a: int, n: int, q: int, r: int)
    requires n > 0 && 0 <= r < n && a == n * q + r
    ensures r == PyMod(a, n) && q == PyFloorDiv(a, n)
  {
    var q0, r0 := PyFloorDiv(a, n), PyMod(a, n);
    assert n * (q - q0) == r0 - r;
    SmallMultipleIsZero(n, q - q0);
  }

  lemma PyModIdempotent(a: int, n: int)
    requires n > 0
    ensures PyMod(PyMod(a, n), n) == PyMod(a, n)
  {
    PyModUnique(PyMod(a, n), n, 0, PyMod(a, n));
  }

  /** The rectangle [0, xBounds) x [0, yBounds). */
  predicate InBounds(p: Point, xBounds: int, yBounds: int)
  {
    0 <= p.x < xBounds && 0 <= p.y < yBounds
  }

  /** No point occurs twice. */
  predicate Distinct(s: seq<Point>)
  {
    forall i, j :: 0 <= i < j < |s| ==> s[i] != s[j]
  }

  /** `Point2D.squash`: each component taken modulo its bound, with
      Python's `%`. For positive bounds the result lies on the board and is
      congruent to `p`. */
  function Squash(p: Point, xBounds: int, yBounds: int): (r: Point)
    requires xBounds != 0 && yBounds != 0
    ensures xBounds > 0 && yBounds > 0 ==> InBounds(r, xBounds, yBounds)
    ensures p.x == xBounds * PyFloorDiv(p.x, xBounds) + r.x
    ensures p.y == yBounds * PyFloorDiv(p.y, yBounds) + r.y
  {
    Point(PyMod(p.x, xBounds), PyMod(p.y, yBounds))
  }

  /** A point already on the board is left where it is. */
  lemma SquashFixesInBounds(p: Point, xBounds: int, yBounds: int)
    requires InBounds(p, xBounds, yBounds)
    ensures Squash(p, xBounds, yBounds) == p
  {
    PyModUnique(p.x, xBounds, 0, p.x);
    PyModUnique(p.y, yBounds, 0, p.y);
  }

  lemma SquashIdempotent(p: Point, xBounds: int, yBounds: int)
    requires xBounds > 0 && yBounds > 0
    ensures Squash(Squash(p, xBounds, yBounds), xBounds, yBounds) == Squash(p, xBounds, yBounds)
  {
    PyModIdempotent(p.x, xBounds);
    PyModIdempotent(p.y, yBounds);
  }

  /** `Direction`: four named constants, each carrying a unit vector. */
  datatype Direction = Up | Down | Right | Left

  function Abs(n: int): nat
  {
    if n < 0 then -n else n
  }

  /** `Direction.value`: UP=(0,-1), DOWN=(0,1), RIGHT=(1,0), LEFT=(-1,0). */
  function Vector(d: Direction): (v: Point)
    ensures Abs(v.x) + Abs(v.y) == 1
  {
    match d
    case Up => Point(0, -1)
    case Down => Point(0, 1)
    case Right => Point(1, 0)
    case Left => Point(-1, 0)
  }

  function Opposite(d: Direction): Direction
  {
    match d
    case Up => Down
    case Down => Up
    case Right => Left
    case Left => Right
  }

  /** Distinct directions carry distinct vectors. */
  lemma VectorInjective(a: Direction, b: Direction)
    ensures Vector(a) == Vector(b) <==> a == b
  {
    match a
    case Up =>
    case Down =>
    case Right =>
    case Left =>
  }

  /** Comparing a vector with the negation of another is the same as asking
      whether the two directions are opposite. */
  lemma ReversalIsOpposite(a: Direction, b: Direction)
    ensures Vector(a) == Neg(Vector(b)) <==> b == Opposite(a)
  {
  }
}
