/** The character grid of a Display (`content`, a list of `height` rows of
    `width` one-character strings) as a value, with the bounds predicate of
    `__Handler.is_valid_position` and the single-cell operations the drawing
    routines are built from. */
module Grid {
  import opened DatatypeExtend

  /** Rows of cells; `g[y][x]` is the cell in column x of row y. */
  type Grid = seq<seq<char>>

  /** `g` has `h` rows of `w` cells each. */
  predicate IsGrid(g: Grid, w: int, h: int) {
    |g| == h && forall r :: 0 <= r < |g| ==> |g[r]| == w
  }

  /** `is_valid_position`: non-negative and strictly below the size
      (`x == w` is outside). */
  predicate IsValidPosition(p: Position, maxSize: (int, int)) {
    p.x >= 0 && p.y >= 0 && p.x < maxSize.0 && p.y < maxSize.1
  }

  /** A grid of `h` rows of `w` copies of `fill`, as built by `__init__` and `clear`. */
  function Blank(w: nat, h: nat, fill: char): (g: Grid)
    ensures IsGrid(g, w, h)
    ensures forall r, c :: 0 <= r < h && 0 <= c < w ==> g[r][c] == fill
  {
    seq(h, _ => seq(w, _ => fill))
  }

  /** `content[y][x] = c`. */
  function SetCell(g: Grid, x: int, y: int, c: char): (r: Grid)
    requires 0 <= y < |g| && 0 <= x < |g[y]|
    ensures |r| == |g| && forall i :: 0 <= i < |g| ==> |r[i]| == |g[i]|
    ensures r[y][x] == c
    ensures forall i, j :: 0 <= i < |g| && 0 <= j < |g[i]| && (i != y || j != x) ==> r[i][j] == g[i][j]
  {
    g[y := g[y][x := c]]
  }

  /** The restrict-to gate of `draw_char` and `draw_line`: an empty restrict
      string allows every write, otherwise the cell must already hold one of
      its characters. */
  predicate MayWrite(g: Grid, x: int, y: int, restrict: string)
    requires 0 <= y < |g| && 0 <= x < |g[y]|
  {
    restrict == [] || g[y][x] in restrict
  }

  /** Cells of `g` whose character occurs in `target` (the work left to a flood fill). */
  function CountIn(g: Grid, target: string): nat {
    if g == [] then 0 else CountRowIn(g[0], target) + CountIn(g[1..], target)
  }

  function CountRowIn(row: seq<char>, target: string): nat {
    if row == [] then 0 else (if row[0] in target then 1 else 0) + CountRowIn(row[1..], target)
  }

  lemma {:induction false} CountRowAfterSet(row: seq<char>, x: nat, c: char, target: string)
    requires x < |row| && c !in target
    ensures CountRowIn(row[x := c], target) == CountRowIn(row, target) - (if row[x] in target then 1 else 0)
  {
    if x > 0 {
      assert row[x := c][1..] == row[1..][x - 1 := c];
      CountRowAfterSet(row[1..], x - 1, c, target);
    }
  }

  /** Writing a character outside `target` removes at most one target cell. */
  lemma {:induction false} CountAfterSet(g: Grid, x: int, y: int, c: char, target: string)
    requires 0 <= y < |g| && 0 <= x < |g[y]| && c !in target
    ensures CountIn(SetCell(g, x, y, c), target) == CountIn(g, target) - (if g[y][x] in target then 1 else 0)
  {
    if y == 0 {
      assert SetCell(g, x, y, c)[1..] == g[1..];
      CountRowAfterSet(g[0], x, c, target);
    } else {
      assert SetCell(g, x, y, c)[1..] == SetCell(g[1..], x, y - 1, c);
      CountAfterSet(g[1..], x, y - 1, c, target);
    }
  }
}
