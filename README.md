# Terminal snake game, modelled in Dafny

This project models the game logic of a single-file terminal snake game
(`src/snake/main.py`). A snake moves on a 30 × 20 board that wraps around at
the edges. It grows by eating apples and dies when its head runs into its own
body. The model covers:

- the point arithmetic: `Point2D` with `__add__`, `__neg__`, structural
  equality and `squash` with Python's `%`;
- the four `Direction` vectors;
- the `Snake` state machine (`move`, `grow`, `update`, `is_dead`);
- apple placement (`new_apple_location`);
- the board and frame `plot` builds;
- one pass of the loop in `main`.

Modules:

- `Geometry` (geometry.dfy): `Point`, Python floor division and modulo
  (`PyFloorDiv`, `PyMod`), `Squash`, `InBounds`, `Direction` and `Vector`.
- `SnakeMachine` (snake.dfy):
  - key normalisation (`str.strip()` then `str.lower()`);
  - the `char_to_direction` table and the steering rule;
  - pure functions for the body (`Grown`, `Updated`, `Collides`);
  - the class `Snake`, with fields `coords: seq<Point>` and
    `direction`, whose methods reassign those fields as the Python methods
    do.
- `ApplePlacement` (apple.dfy): the free-cell list in the source's order,
  x outer and y inner, and `NewAppleLocation` with result `Win | Apple(p)`.
- `Render` (render.dfy): `Plot` builds the board in place in an `array2`
  and then appends the rendered rows. It is proved equal to a reference grid
  (`Grid`) and a reference frame (`Frame`).
- `Game` (game.dfy):
  - `Step` is the pure meaning of one tick: given the state, an optional key
    and an apple choice, it returns the next state and one of `Continue`,
    `Dead`, `Quit` or `Won`;
  - `Tick` performs that tick on a `Snake` object and is proved equal to
    `Step`;
  - `Start` is the set-up at the top of `main`.

Behaviour kept exactly as the code has it:

- **The new head is not wrapped.** `update` squashes the old coordinates
  first, then grows (main.py:111-112). The new head can therefore sit at
  `-1` or at the bound.
- **Both checks use that head as it is.** The death check and the eat check
  (main.py:116, 155) compare the possibly off-board head without wrapping
  it. `Game.EdgeAppleScenario` shows the consequence: an apple in the last
  column is passed over when the snake reaches it across the left edge.
- **The snake can cover the apple.** Apple placement skips occupied cells,
  yet a snake of two or more segments can still end up on the apple after a
  pass like the one above (`Game.CoverScenario`). `plot` then shows the
  snake there (snake marks are drawn last).
- **The free-cell order and the choice.** Free cells are listed column by
  column. The random choice is modelled as any index into that list: `pick`
  taken modulo the list's length.
- **Off-board snake points are skipped by `plot`** (main.py:132).
- **Python semantics.** Indexing `board[apple.y][apple.x]` follows Python,
  where a negative index counts from the end (`PyIndex`). `%` follows
  Python, where the result takes the sign of the divisor (`PyMod`); for
  positive bounds this is Dafny's `%`.

## Model

| member | source | states |
|---|---|---|
| `Geometry.Add` | src/snake/main.py:48-51 | componentwise sum of two points; its properties are stated by `NegInverse` and `AddCommutative` |
| `Geometry.Neg` | src/snake/main.py:71-72 | componentwise negation; `NegInverse` states that it cancels `Add` and undoes itself, `ReversalIsOpposite` what negating a direction vector gives |
| `Geometry.PyMod` | src/snake/main.py:74-75 | Python's `%`: for a positive divisor the result lies in `[0, n)`, for a negative one in `(n, 0]`, and `a == n * (a // n) + a % n` |
| `Geometry.PyModUnique` | src/snake/main.py:74-75 | for a positive divisor, any quotient and remainder in range with `a == n*q + r` are Python's `//` and `%` |
| `Geometry.PyModIdempotent` | src/snake/main.py:74-75 | taking the remainder twice gives the same value as taking it once |
| `Geometry.NegInverse` | src/snake/main.py:71-72 | `__neg__` is the additive inverse under `__add__` and an involution |
| `Geometry.AddCommutative` | src/snake/main.py:48-51 | componentwise addition does not depend on operand order |
| `Geometry.Squash` | src/snake/main.py:74-75 | for positive bounds the squashed point lies in `[0,xBounds) × [0,yBounds)`; each component is congruent to the original one |
| `Geometry.SquashFixesInBounds` | src/snake/main.py:74-75 | a point already on the board is not moved by squash |
| `Geometry.SquashIdempotent` | src/snake/main.py:74-75 | squashing twice gives the same point as squashing once |
| `Geometry.Vector` | src/snake/main.py:77-81 | every direction vector is a unit step along one axis |
| `Geometry.VectorInjective` | src/snake/main.py:77-81 | two directions have equal vectors exactly when they are the same direction |
| `Geometry.ReversalIsOpposite` | src/snake/main.py:101 | the vector test "current equals minus requested" holds exactly when the requested direction is the opposite one |
| `SnakeMachine.StripLeft` | src/snake/main.py:99 | removes exactly the leading whitespace: what is removed is all whitespace, and the rest does not start with whitespace |
| `SnakeMachine.StripRight` | src/snake/main.py:99 | removes exactly the trailing whitespace: what is removed is all whitespace, and the rest does not end with whitespace |
| `SnakeMachine.Strip` | src/snake/main.py:99 | `str.strip()`: `StripRight` of `StripLeft`, whose contracts say exactly which characters go; `StripIdempotent` states a second strip changes nothing |
| `SnakeMachine.Lower` | src/snake/main.py:99 | `str.lower()` applied character by character (ASCII letters only); `NormalizeOneChar` states its effect on a key |
| `SnakeMachine.Normalize` | src/snake/main.py:99 | `key.strip().lower()`; `NormalizeOneChar` states the result for every one-character key |
| `SnakeMachine.StripIdempotent` | src/snake/main.py:99 | stripping an already stripped key changes nothing |
| `SnakeMachine.NormalizeOneChar` | src/snake/main.py:99 | a one-character key normalises to the empty string if it is whitespace, otherwise to its lower-case character |
| `SnakeMachine.KeyDirection` | src/snake/main.py:87-92 | the `char_to_direction` table: `w`, `a`, `s`, `d` to up, left, down, right, nothing else; `SteerCases` states how `move` uses it |
| `SnakeMachine.IsQuit` | src/snake/main.py:103 | the normalised key is `q`; `Snake.Move` returns false exactly then, `QuitKeepsDirection` states it never turns the snake |
| `SnakeMachine.Steer` | src/snake/main.py:100-102 | the new direction is never the reverse of the current one, and is either the current one or the direction the key names |
| `SnakeMachine.SteerCases` | src/snake/main.py:98-102 | a non-direction key leaves the direction; a reversing key leaves it; any other direction key sets it |
| `SnakeMachine.QuitKeepsDirection` | src/snake/main.py:100-104 | the quit key never changes the direction |
| `SnakeMachine.Collides` | src/snake/main.py:115-116 | `is_dead` holds exactly when the head occurs again at some later index; a one-segment snake is never dead |
| `SnakeMachine.CollidesOnlyOnRepeat` | src/snake/main.py:115-116 | a body without repeated cells is not dead; a body whose head reappears is dead |
| `SnakeMachine.Grown` | src/snake/main.py:108 | the new head (old head plus direction vector) prepended to the body; `Snake.Grow` states length plus one, new head and unchanged tail |
| `SnakeMachine.SquashAll` | src/snake/main.py:111 | squash applied to every coordinate; `Updated` states what it contributes to the moved body |
| `SnakeMachine.Updated` | src/snake/main.py:110-113 | length is preserved; the new head is the squashed old head plus the direction vector; segment `i` is the squashed old segment `i-1`; for positive bounds every segment but the head is on the board |
| `SnakeMachine.Snake.IsDead` | src/snake/main.py:115-116 | `is_dead` on the object: `Collides` of its coordinates, whose contract states when that holds |
| `SnakeMachine.Snake.constructor` | src/snake/main.py:84-92 | a one-segment body at the given point, the given direction |
| `SnakeMachine.Snake.Move` | src/snake/main.py:98-105 | the body is unchanged; the direction becomes the steered direction for the normalised key; the result is false exactly for the quit key |
| `SnakeMachine.Snake.Grow` | src/snake/main.py:107-108 | one segment longer; the new head is the old head plus the direction vector; the old body follows it unchanged |
| `SnakeMachine.Snake.Update` | src/snake/main.py:110-113 | the body becomes `Updated` of the old body; the direction is unchanged; the body stays non-empty |
| `ApplePlacement.FreeInColumn` | src/snake/main.py:120 | the inner loop yields exactly the unoccupied cells of column `x` from row `y` on, in increasing row order |
| `ApplePlacement.FreeFrom` | src/snake/main.py:120 | the outer loop yields exactly the unoccupied board cells from column `x` on, in column-then-row order |
| `ApplePlacement.FreeCells` | src/snake/main.py:119-120 | the free list holds exactly the unoccupied board cells, each once |
| `ApplePlacement.NewAppleLocation` | src/snake/main.py:118-125 | a win is signalled exactly when every board cell is occupied; otherwise the apple is on the board and not on the snake |
| `ApplePlacement.PickSelects` | src/snake/main.py:125 | choice `i` picks entry `i` of the free list |
| `ApplePlacement.EveryFreeCellCanBeChosen` | src/snake/main.py:125 | every unoccupied board cell is a possible apple |
| `Render.PyIndex` | src/snake/main.py:130 | a valid Python index denotes a position inside the list: the index itself, or the index plus the length when it is negative |
| `Render.CellAt` | src/snake/main.py:129-133 | the marker of one board cell: snake if a snake point is there, else apple at the cell the apple indexes, else blank; `GridContents` states it cell by cell |
| `Render.Grid` | src/snake/main.py:129-133 | the board as rows of markers; `GridContents` states its shape and contents |
| `Render.GridContents` | src/snake/main.py:129-133 | `yBounds` rows of `xBounds` cells; each on-board snake cell is snake; the apple cell is apple unless the snake covers it; every other cell is blank |
| `Render.Joined` | src/snake/main.py:138 | `" ".join(row)` over the cell glyphs; `JoinedLayout` states its length and where each cell lands |
| `Render.RowLine` | src/snake/main.py:138 | one rendered row between border characters; `FrameLayout` states its width and cell positions |
| `Render.Border` | src/snake/main.py:135 | the horizontal border, two dashes per column between corners; `FrameLayout` states it opens and closes the frame with the row width |
| `Render.Frame` | src/snake/main.py:136-139 | border, one line per row, border; `FrameLayout` states its line count, widths and cell positions |
| `Render.JoinedLayout` | src/snake/main.py:138 | a joined row is `2n-1` characters long, with cell `c` at position `2c` and a space at every odd position |
| `Render.FrameLayout` | src/snake/main.py:135-139 | the frame has `yBounds + 2` lines; the first and last are the border; every line is `2*xBounds + 2` wide; cell `(r,c)` shows at column `2c+1` of line `r+1` |
| `Render.Plot` | src/snake/main.py:127-140 | the board built in place and rendered row by row is exactly `Frame(Grid(...))` |
| `Game.ApplyKey` | src/snake/main.py:161-162 | `if key: is_running = snake.move(key)`; `ApplyKeyEffect` states it stops only for the quit key and never reverses |
| `Game.EatCheck` | src/snake/main.py:155-159 | the eat check: score, extra growth and new placement when the head is on the apple; `TickEats` and `TickWithoutEating` state its effect |
| `Game.Advance` | src/snake/main.py:160-163 | the key, then the wrapped move; `TickMoves` states its effect |
| `Game.Step` | src/snake/main.py:153-163 | one tick as a function; `TickDead`, `TickEats`, `TickWithoutEating` and `TickMoves` state what it does |
| `Game.ApplyKeyEffect` | src/snake/main.py:160-162 | the loop stops only for the quit key; the key never reverses the snake |
| `Game.TickDead` | src/snake/main.py:153-154 | the tick ends `Dead` exactly when the snake collides, and then nothing changes |
| `Game.TickEats` | src/snake/main.py:155-159 | on eating, the score rises by one and the length by one; the tick ends `Won` exactly when the grown snake covers the board; otherwise the new apple is on the board and off the grown snake |
| `Game.TickWithoutEating` | src/snake/main.py:155-163 | without eating, score, apple and length are unchanged, and the tick is neither `Won` nor `Dead` |
| `Game.TickMoves` | src/snake/main.py:160-163 | a moving tick ends `Quit` exactly for the quit key; it never reverses the snake; it keeps the body non-empty with every segment behind the head on the board |
| `Game.FirstTickScenario` | src/snake/main.py:143-163 | from the start position with no key and the apple elsewhere, one tick gives a single segment at (15, 11), alive |
| `Game.ReverseKeyScenario` | src/snake/main.py:160-162 | pressing `w` while heading down leaves the direction down and keeps running |
| `Game.EdgeAppleScenario` | src/snake/main.py:110-113 | heading left from (0, 5), the head stands at (-1, 5) and then at (28, 5); the apple at (29, 5) is not eaten |
| `Game.CoverScenario` | src/snake/main.py:110-113 | a two-segment snake heading left from (0, 5) passes the apple at (29, 5) uneaten and two ticks later has its second segment on it |
| `Game.Start` | src/snake/main.py:143-149 | one segment at (15, 10) heading down, score 0, the apple on a free board cell (the start is never a win) |
| `Game.Tick` | src/snake/main.py:153-163 | the loop body run on the snake object yields the same state and outcome as `Step` |

## Left out

- `KeyListener` (terminal raw mode, `select`, reading one character) is terminal I/O. The key of a tick is an `Option<string>` parameter instead.
- The screen clear, `print`, the bell character and the ANSI colour escapes are output only. Frames are built from the abstract cell markers, and `Glyph` shows the bare characters `' '`, `A` and `S` without colour codes.
- `time.sleep` is timing only.
- `random.choice` is modelled as an arbitrary index `pick` into the free list. No probability distribution is modelled.
- `sys.exit(0)` on a full board is modelled as the outcome `Won`, not as process termination.
- The unbounded `while` loop of `main` is not modelled. Neither is the game-over message after it. One tick and its properties are modelled instead.
- `Point2D.__eq__` is Dafny's structural equality on `Point`, so it has no member of its own.
- `__hash__`, `__repr__`, `__iter__` and `Snake.show` are not modelled: Dafny's datatypes and direct field access already provide them.
- The `NotImplemented` / `False` branches of `__add__` and `__eq__` for non-point operands are ruled out by Dafny's types.
- `Squash`, `Updated`, `Step`: a zero bound, which raises `ZeroDivisionError` in Python, is excluded by a precondition rather than modelled as an error.
- `Plot`: an apple index that Python would reject with `IndexError` is excluded by a precondition. Every apple the game places is on the board.
- `LowerChar`: only ASCII letters are lower-cased. Python's `str.lower` maps more characters. No other character lower-cases to `w`, `a`, `s`, `d` or `q`, so the keys the game reacts to are the same.
- `NewAppleLocation`: the win condition is stated as "every board cell is occupied". It is not stated as "the occupied set has `xBounds * yBounds` elements", because the unwrapped head can be off the board.
