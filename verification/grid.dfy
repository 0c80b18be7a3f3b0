/**
  The playfield: a square board of `Width` × `Width` cells, flattened row-major
  so that cell = row * Width + column.
 */
module Grid {

  /** Number of cells in each row and in each column (`width`). */
  const Width: int := 15

  /** Number of cells on the board (`width ** 2`). */
  const Cells: int := Width * Width

  /** The last cell an invader may reach without breaching: the end of the
      row just above the shooter's row. */
  const LastAlienCell: int := Cells - Width - 1

  predicate InGrid(cell: int) {
    0 <= cell < Cells
  }

  function Row(cell: int): int {
    cell / Width
  }

  function Column(cell: int): int {
    cell % Width
  }

  /** JavaScript's `%`: truncating division, so the remainder takes the sign
      of the dividend (Dafny's `%` is Euclidean). */
  function JsRem(a: int, m: int): (r: int)
    requires m > 0
    ensures -m < r < m
    ensures a >= 0 ==> r >= 0
    ensures a <= 0 ==> r <= 0
  {
    if a >= 0 then a % m else -((-a) % m)
  }

  /** JavaScript's `Math.ceil(n / 2)` for a non-negative integer `n`. */
  function CeilHalf(n: nat): (r: nat)
    ensures 2 * r == n || 2 * r == n + 1
  {
    (n + 1) / 2
  }

  /** Quotient and remainder by `Width` are unique. */
  lemma DivModUnique(n: int, q: int, c: int)
    requires 0 <= c < Width
    requires n == Width * q + c
    ensures Row(n) == q && Column(n) == c
  {
  }

  /** Moving `dr` rows and `dc` columns from `p` lands on the expected row and
      column whenever the column offset stays inside the row. */
  lemma CellOffset(p: int, dr: int, dc: int)
    requires 0 <= Column(p) + dc < Width
    ensures Row(p + Width * dr + dc) == Row(p) + dr
    ensures Column(p + Width * dr + dc) == Column(p) + dc
  {
    DivModUnique(p, Row(p), Column(p));
    DivModUnique(p + Width * dr + dc, Row(p) + dr, Column(p) + dc);
  }
}
