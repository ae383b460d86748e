/**
 * A program or glyph as a grid of characters (a list of rows, possibly ragged),
 * and the one-step neighbour lookup `_get_neighbor`.
 */
module Grids {
  import opened Symbols

  type Grid = seq<seq<char>>

  predicate InGrid(g: Grid, x: int, y: int) {
    0 <= y < |g| && 0 <= x < |g[y]|
  }

  /** Every row has the same length. */
  predicate Rect(g: Grid) {
    forall i, j :: 0 <= i < |g| && 0 <= j < |g| ==> |g[i]| == |g[j]|
  }

  /** A row made only of spaces (an empty row counts as blank). */
  predicate Blank(row: seq<char>) {
    forall i :: 0 <= i < |row| ==> row[i] == ' '
  }

  /** The coordinates one step from (x, y) in direction d; y grows downwards. */
  function Shift(x: int, y: int, d: Dir): (int, int) {
    match d
    case Up => (x, y - 1)
    case Down => (x, y + 1)
    case Left => (x - 1, y)
    case Right => (x + 1, y)
  }

  /** The step leaves the grid: up from the top row, left from column 0,
      down from the last row, or right from the last column of that row. */
  predicate Leaves(g: Grid, x: nat, y: nat, d: Dir)
    requires InGrid(g, x, y)
  {
    match d
    case Up => y == 0
    case Left => x == 0
    case Down => y == |g| - 1
    case Right => x == |g[y]| - 1
  }

  /** What `_get_neighbor` gives: None (`Off`), an IndexError on a ragged grid
      (`Ragged`), or the neighbouring symbol with its coordinates. */
  datatype Step = Off | Ragged | At(sym: char, x: nat, y: nat)

  function Cell(g: Grid, x: nat, y: nat): (r: Step)
    requires y < |g|
  {
    if x < |g[y]| then At(g[y][x], x, y) else Ragged
  }

  function GetNeighbor(g: Grid, x: nat, y: nat, d: Dir): (r: Step)
    requires InGrid(g, x, y)
    ensures r.Off? <==> Leaves(g, x, y, d)
    ensures r.At? ==> (r.x, r.y) == Shift(x, y, d) && InGrid(g, r.x, r.y) && r.sym == g[r.y][r.x]
    ensures r.Ragged? <==> !Leaves(g, x, y, d) && !InGrid(g, Shift(x, y, d).0, Shift(x, y, d).1)
    ensures Rect(g) ==> !r.Ragged?
  {
    match d
    case Up => if y > 0 then Cell(g, x, y - 1) else Off
    case Left => if x > 0 then At(g[y][x - 1], x - 1, y) else Off
    case Down => if y < |g| - 1 then Cell(g, x, y + 1) else Off
    case Right => if x < |g[y]| - 1 then At(g[y][x + 1], x + 1, y) else Off
  }

  function MaxWidth(g: Grid): (w: nat)
    ensures forall y :: 0 <= y < |g| ==> |g[y]| <= w
    ensures |g| > 0 ==> exists y :: 0 <= y < |g| && |g[y]| == w
    ensures |g| == 0 ==> w == 0
  {
    if |g| == 0 then 0
    else
      var w := MaxWidth(g[1..]);
      assert forall y :: 1 <= y < |g| ==> g[y] == g[1..][y - 1];
      if |g[0]| >= w then |g[0]| else w
  }

  function Spaces(n: nat): (r: seq<char>)
    ensures |r| == n && Blank(r)
  {
    if n == 0 then [] else Spaces(n - 1) + [' ']
  }

  /** `_lex_glyph` first right-pads every row with spaces to the longest row. */
  function Pad(g: Grid): (r: Grid)
    ensures |r| == |g| && Rect(r)
  {
    var w := MaxWidth(g);
    seq(|g|, y requires 0 <= y < |g| => g[y] + Spaces(w - |g[y]|))
  }

  /** Padding keeps every cell and fills each row out with spaces to the longest row. */
  lemma PadCells(g: Grid)
    ensures forall y :: 0 <= y < |Pad(g)| ==> |Pad(g)[y]| == MaxWidth(g)
    ensures forall y, x :: 0 <= y < |Pad(g)| && 0 <= x < |Pad(g)[y]| ==>
              Pad(g)[y][x] == if x < |g[y]| then g[y][x] else ' '
  {
  }
}
