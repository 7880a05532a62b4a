/** Square grids of side `size` addressed as `grid[x][y]`: `x` picks the row,
    `y` the column, and the row-major index of a cell is `x * size + y`. */
module Grids {

  datatype Pos = Pos(x: int, y: int)

  predicate InGrid(p: Pos, size: int) {
    0 <= p.x < size && 0 <= p.y < size
  }

  /** Where cell `p` sits when the grid is read row by row. */
  function RowMajor(p: Pos, size: nat): (k: nat)
    requires InGrid(p, size)
    ensures k < size * size
  {
    RowMajorBound(p.x, p.y, size);
    p.x * size + p.y
  }

  lemma RowMajorBound(x: nat, y: nat, size: nat)
    requires x < size && y < size
    ensures x * size + y < size * size
  {
    assert x * size <= (size - 1) * size;
  }
}
