/** Apple placement: the free cells of the board, in the order the source
    enumerates them, and the choice among them. */
module ApplePlacement {
  import opened Geometry

  /** `new_apple_location` either ends the game with a win (the board is
      full) or yields the new apple cell. */
  datatype Placement = Win | Apple(location: Point)

  /** The order of the comprehension: by column `x`, then by row `y`. */
  predicate Before(p: Point, q: Point)
  {
    p.x < q.x || (p.x == q.x && p.y < q.y)
  }

  predicate Ascending(s: seq<Point>)
  {
    forall i, j :: 0 <= i < j < |s| ==> Before(s[i], s[j])
  }

  /** The inner `for y in range(...)` loop for column `x`, from row `y` on:
      the cells of that column the body does not occupy, by increasing row. */
  function FreeInColumn(x: int, y: int, yBounds: int, body: seq<Point>): (free: seq<Point>)
    ensures forall p :: p in free <==> p.x == x && y <= p.y < yBounds && p !in body
    ensures forall i :: 0 <= i < |free| ==> free[i].x == x && y <= free[i].y
    ensures Ascending(free)
    decreases yBounds - y
  {
    if y >= yBounds then []
    else
      var rest := FreeInColumn(x, y + 1, yBounds, body);
      if Point(x, y) in body then rest else [Point(x, y)] + rest
  }

  /** The outer `for x in range(...)` loop, from column `x` on. */
  function FreeFrom(x: int, xBounds: int, yBounds: int, body: seq<Point>): (free: seq<Point>)
    ensures forall p :: p in free <==> x <= p.x < xBounds && 0 <= p.y < yBounds && p !in body
    ensures forall i :: 0 <= i < |free| ==> x <= free[i].x
    ensures Ascending(free)
    decreases xBounds - x
  {
    if x >= xBounds then []
    else
      var column := FreeInColumn(x, 0, yBounds, body);
      var rest := FreeFrom(x + 1, xBounds, yBounds, body);
      assert forall i, j :: 0 <= i < |column| && 0 <= j < |rest| ==> Before(column[i], rest[j]);
      column + rest
  }

  /** The `free` list: exactly the board cells the body does not occupy,
      each once. */
  function FreeCells(xBounds: int, yBounds: int, body: seq<Point>): (free: seq<Point>)
    ensures forall p :: p in free <==> InBounds(p, xBounds, yBounds) && p !in body
    ensures Distinct(free)
  {
    var free := FreeFrom(0, xBounds, yBounds, body);
    assert forall i, j :: 0 <= i < j < |free| ==> Before(free[i], free[j]);
    free
  }

  /** `new_apple_location`, with `random.choice` replaced by the index
      `pick` into the free list (taken modulo its length). A win is
      signalled exactly when every board cell is occupied; otherwise the
      apple lands on a board cell the body does not occupy. */
  function NewAppleLocation(xBounds: int, yBounds: int, body: seq<Point>, pick: nat): (r: Placement)
    ensures r.Win? <==> forall p :: InBounds(p, xBounds, yBounds) ==> p in body
    ensures r.Apple? ==> InBounds(r.location, xBounds, yBounds) && r.location !in body
  {
    var free := FreeCells(xBounds, yBounds, body);
    if |free| == 0 then
      Win
    else
      Apple(free[pick % |free|])
  }

  /** The choice reaches every entry of the free list. */
  lemma PickSelects(xBounds: int, yBounds: int, body: seq<Point>, i: nat)
    requires i < |FreeCells(xBounds, yBounds, body)|
    ensures NewAppleLocation(xBounds, yBounds, body, i) == Apple(FreeCells(xBounds, yBounds, body)[i])
  {
    var n := |FreeCells(xBounds, yBounds, body)|;
    assert i % n == i;
  }

  /** Every free cell is a possible apple: some choice of `pick` puts the
      apple there. */
  lemma EveryFreeCellCanBeChosen(xBounds: int, yBounds: int, body: seq<Point>, p: Point)
    requires InBounds(p, xBounds, yBounds) && p !in body
    ensures exists pick: nat :: NewAppleLocation(xBounds, yBounds, body, pick) == Apple(p)
  {
    var free := FreeCells(xBounds, yBounds, body);
    assert p in free;
    var i :| 0 <= i < |free| && free[i] == p;
    PickSelects(xBounds, yBounds, body, i);
  }
}
