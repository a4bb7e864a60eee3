/** Grids of cells, shared by the layout grid and the solution grid. */
module Grid {

  /** One square of a grid, in the block and empty-cell conventions of the
      ipuz v2 format: `Black` is the block "#", `Empty` is the unnumbered
      cell 0, `Num(n)` a clue number and `Letter(c)` a solved letter. */
  datatype Cell = Black | Empty | Num(n: int) | Letter(c: char)

  /** A grid is a list of rows, indexed `g[row][column]`. */
  type Grid = seq<seq<Cell>>

  /** The working size both grid builders hard-code. */
  const Size: nat := 15

  predicate IsGrid(g: Grid, height: nat, width: nat)
  {
    |g| == height && forall i :: 0 <= i < |g| ==> |g[i]| == width
  }

  predicate AllBlack(g: Grid)
  {
    forall i, j :: 0 <= i < |g| && 0 <= j < |g[i]| ==> g[i][j] == Black
  }

  /** How many times `range(n)` or `[v] * n` repeats: never fewer than zero. */
  function Clamp(n: int): nat
  {
    if n < 0 then 0 else n
  }

  /** `["#"] * width`. */
  function BlackRow(width: int): seq<Cell>
  {
    seq(Clamp(width), _ => Black)
  }

  /** `make_blank_puzzle`: one all-black row appended per row index. */
  function MakeBlankPuzzle(width: int, height: int): (g: Grid)
    ensures IsGrid(g, Clamp(height), Clamp(width))
    ensures AllBlack(g)
    decreases Clamp(height)
  {
    if height <= 0 then [] else MakeBlankPuzzle(width, height - 1) + [BlackRow(width)]
  }

  /** `g[i][j] = v`. */
  function SetCell(g: Grid, i: int, j: int, v: Cell): (r: Grid)
    requires 0 <= i < |g| && 0 <= j < |g[i]|
    ensures |r| == |g|
    ensures forall a :: 0 <= a < |g| ==> |r[a]| == |g[a]|
    ensures forall a, b :: 0 <= a < |g| && 0 <= b < |g[a]| ==>
              r[a][b] == (if a == i && b == j then v else g[a][b])
  {
    g[i := g[i][j := v]]
  }
}
