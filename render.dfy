/** The frame `plot` draws: a grid of cell markers, the apple drawn
    first and the snake over it, rendered as bordered text lines. The ANSI
    colour escapes around the markers and the screen clear are not part
    of this model. */
module Render {
  import opened Geometry
  import opened SnakeMachine

  datatype Cell = Blank | AppleMark | SnakeMark

  /** The character a cell shows (its colour aside). */
  function Glyph(c: Cell): char
  {
    match c
    case Blank => ' '
    case AppleMark => 'A'
    case SnakeMark => 'S'
  }

  /** An index Python accepts for a list of length `n`. */
  predicate ValidIndex(i: int, n: int)
  {
    -n <= i < n
  }

  /** The element Python's `list[i]` denotes: a negative index counts from
      the end. */
  function PyIndex(i: int, n: int): (k: nat)
    requires ValidIndex(i, n)
    ensures k < n && (k == i || k == i + n)
  {
    if i < 0 then i + n else i
  }

  /** What the finished board holds at row `row`, column `col`: the snake
      wherever one of its cells is, else the apple at the cell
      `board[apple.y][apple.x]` denotes, else blank. */
  function CellAt(xBounds: int, yBounds: int, body: seq<Point>, apple: Point, row: int, col: int): Cell
    requires ValidIndex(apple.x, xBounds) && ValidIndex(apple.y, yBounds)
  {
    if Point(col, row) in body then SnakeMark
    else if row == PyIndex(apple.y, yBounds) && col == PyIndex(apple.x, xBounds) then AppleMark
    else Blank
  }

  /** The board as `yBounds` rows of `xBounds` cells. */
  function Grid(xBounds: int, yBounds: int, body: seq<Point>, apple: Point): seq<seq<Cell>>
    requires ValidIndex(apple.x, xBounds) && ValidIndex(apple.y, yBounds)
  {
    seq(yBounds, r requires 0 <= r < yBounds =>
      seq(xBounds, c requires 0 <= c < xBounds => CellAt(xBounds, yBounds, body, apple, r, c)))
  }

  /** The grid has the board's shape; every board cell of the body is
      snake; the apple is shown unless the body covers it; every other cell
      is blank. */
  lemma GridContents(xBounds: int, yBounds: int, body: seq<Point>, apple: Point)
    requires ValidIndex(apple.x, xBounds) && ValidIndex(apple.y, yBounds)
    ensures var g := Grid(xBounds, yBounds, body, apple);
      && |g| == yBounds
      && (forall r :: 0 <= r < yBounds ==> |g[r]| == xBounds)
      && (forall p :: p in body && InBounds(p, xBounds, yBounds) ==> g[p.y][p.x] == SnakeMark)
      && (var ax, ay := PyIndex(apple.x, xBounds), PyIndex(apple.y, yBounds);
          Point(ax, ay) !in body ==> g[ay][ax] == AppleMark)
      && (forall r, c ::
            (0 <= r < yBounds && 0 <= c < xBounds && Point(c, r) !in body
             && !(r == PyIndex(apple.y, yBounds) && c == PyIndex(apple.x, xBounds)))
            ==> g[r][c] == Blank)
  {
  }

  /** `" ".join(row)`: the glyphs separated by single spaces. */
  function Joined(row: seq<Cell>): string
  {
    if |row| == 0 then ""
    else if |row| == 1 then [Glyph(row[0])]
    else [Glyph(row[0]), ' '] + Joined(row[1..])
  }

  /** A joined row has two characters per cell less one; cell `c` sits at
      position `2 * c` and every odd position is a space, so the row can be
      read back from its text. */
  lemma {:induction false} JoinedLayout(row: seq<Cell>)
    requires |row| > 0
    ensures |Joined(row)| == 2 * |row| - 1
    ensures forall c :: 0 <= c < |row| ==> Joined(row)[2 * c] == Glyph(row[c])
    ensures forall c :: 0 <= c < |row| - 1 ==> Joined(row)[2 * c + 1] == ' '
  {
    if |row| > 1 {
      JoinedLayout(row[1..]);
      var rest := Joined(row[1..]);
      assert Joined(row) == [Glyph(row[0]), ' '] + rest;
      forall c | 1 <= c < |row|
        ensures Joined(row)[2 * c] == Glyph(row[c])
      {
        assert Joined(row)[2 * c] == rest[2 * (c - 1)];
      }
      forall c | 1 <= c < |row| - 1
        ensures Joined(row)[2 * c + 1] == ' '
      {
        assert Joined(row)[2 * c + 1] == rest[2 * (c - 1) + 1];
      }
    }
  }

  /** One rendered row: a border character, the joined cells, a space and
      a border character. */
  function RowLine(row: seq<Cell>): string
  {
    "|" + Joined(row) + " |"
  }

  function RowLines(grid: seq<seq<Cell>>): seq<string>
  {
    seq(|grid|, r requires 0 <= r < |grid| => RowLine(grid[r]))
  }

  /** The horizontal border: two dashes per column between corners. */
  function Border(xBounds: int): string
  {
    "+" + seq(if xBounds < 0 then 0 else 2 * xBounds, _ => '-') + "+"
  }

  /** The rendered frame: a border line, one line per grid row, a border
      line. */
  function Frame(grid: seq<seq<Cell>>, xBounds: int): seq<string>
  {
    [Border(xBounds)] + RowLines(grid) + [Border(xBounds)]
  }

  /** The frame of a `yBounds` x `xBounds` grid has `yBounds + 2` lines,
      the first and last the border; every line is `2 * xBounds + 2`
      characters wide, and cell `(r, c)` shows at column `2 * c + 1` of
      line `r + 1`. */
  lemma FrameLayout(grid: seq<seq<Cell>>, xBounds: int)
    requires xBounds > 0
    requires forall r :: 0 <= r < |grid| ==> |grid[r]| == xBounds
    ensures var f := Frame(grid, xBounds);
      && |f| == |grid| + 2
      && f[0] == Border(xBounds) && f[|f| - 1] == Border(xBounds)
      && (forall k :: 0 <= k < |f| ==> |f[k]| == 2 * xBounds + 2)
      && (forall r, c :: 0 <= r < |grid| && 0 <= c < xBounds ==> f[r + 1][2 * c + 1] == Glyph(grid[r][c]))
  {
    var f := Frame(grid, xBounds);
    forall r | 0 <= r < |grid|
      ensures f[r + 1] == RowLine(grid[r])
      ensures |f[r + 1]| == 2 * xBounds + 2
      ensures forall c :: 0 <= c < xBounds ==> f[r + 1][2 * c + 1] == Glyph(grid[r][c])
    {
      JoinedLayout(grid[r]);
      assert f[r + 1] == RowLine(grid[r]);
    }
  }

  /** `plot`: builds the board in place (blank cells, then the apple, then
      every on-board cell of the snake) and renders it with its border. */
  method Plot(xBounds: int, yBounds: int, snake: Snake, apple: Point) returns (lines: seq<string>)
    requires ValidIndex(apple.x, xBounds) && ValidIndex(apple.y, yBounds)
    ensures lines == Frame(Grid(xBounds, yBounds, snake.coords, apple), xBounds)
  {
    var board := new Cell[yBounds, xBounds]((r, c) => Blank);
    board[PyIndex(apple.y, yBounds), PyIndex(apple.x, xBounds)] := AppleMark;
    var body := snake.coords;
    for i := 0 to |body|
      invariant forall r, c :: 0 <= r < yBounds && 0 <= c < xBounds ==>
        board[r, c] == CellAt(xBounds, yBounds, body[..i], apple, r, c)
    {
      var point := body[i];
      if 0 <= point.x < xBounds && 0 <= point.y < yBounds {
        board[point.y, point.x] := SnakeMark;
      }
      assert body[..i + 1] == body[..i] + [point];
    }
    assert body[..|body|] == body;
    ghost var grid := Grid(xBounds, yBounds, body, apple);
    var horizontal := Border(xBounds);
    lines := [horizontal];
    for r := 0 to yBounds
      invariant lines == [horizontal] + RowLines(grid[..r])
    {
      var row := seq(xBounds, c requires 0 <= c < xBounds reads board => board[r, c]);
      assert row == grid[r];
      assert grid[..r + 1] == grid[..r] + [grid[r]];
      lines := lines + [RowLine(row)];
    }
    assert grid[..yBounds] == grid;
    lines := lines + [horizontal];
  }
}
