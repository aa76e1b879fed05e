/** The game field: a fixed-size grid of cell values stored row by row and
    updated in place. */
module Field {
  import Board

  class GameField {
    const vSize: nat
    const hSize: nat
    /** `cells[y, x]` is the cell in column `x` of row `y`. */
    const cells: array2<int>

    /** The storage has the field's dimensions. */
    ghost predicate Valid() {
      cells.Length0 == vSize && cells.Length1 == hSize
    }

    /** The field's current contents as a value. */
    ghost function Snapshot(): (g: Board.Grid)
      reads cells
      requires Valid()
      ensures Board.IsGrid(g, vSize, hSize)
      ensures forall y, x :: 0 <= y < vSize && 0 <= x < hSize ==> g[y][x] == cells[y, x]
    {
      seq(vSize, y requires 0 <= y < vSize reads cells =>
        seq(hSize, x requires 0 <= x < hSize reads cells => cells[y, x]))
    }

    /** A new field of `vSize` rows and `hSize` columns, every cell dead. */
    constructor (vSize: nat, hSize: nat)
      ensures Valid() && fresh(cells)
      ensures this.vSize == vSize && this.hSize == hSize
      ensures Snapshot() == Board.Blank(vSize, hSize)
    {
      this.vSize := vSize;
      this.hSize := hSize;
      cells := new int[vSize, hSize]((_, _) => 0);
      new;
      assert forall y | 0 <= y < vSize :: Snapshot()[y] == Board.Blank(vSize, hSize)[y];
    }

    /** Reads the cell at column `x`, row `y`; any coordinate off the field
        reads as 0 and the read never fails. */
    function Get(x: int, y: int): (v: int)
      reads cells
      requires Valid()
      ensures v == Board.At(Snapshot(), x, y)
      ensures !(0 <= x < hSize && 0 <= y < vSize) ==> v == 0
    {
      if !(1 <= x + 1 <= hSize) || !(1 <= y + 1 <= vSize) then 0 else cells[y, x]
    }

    /** Writes `v` into the cell at column `x`, row `y`, which must be on the
        field: exactly that cell changes. */
    method Set(x: int, y: int, v: int)
      requires Valid()
      requires 0 <= x < hSize && 0 <= y < vSize
      modifies cells
      ensures Valid()
      ensures Snapshot() == Board.Update(old(Snapshot()), x, y, v)
      ensures Get(x, y) == v
      ensures forall yy, xx :: 0 <= yy < vSize && 0 <= xx < hSize && (yy != y || xx != x) ==>
        cells[yy, xx] == old(cells[yy, xx])
    {
      cells[y, x] := v;
      ghost var want := Board.Update(old(Snapshot()), x, y, v);
      assert forall yy | 0 <= yy < vSize :: Snapshot()[yy] == want[yy];
    }
  }
}
