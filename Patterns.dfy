/** Small known patterns and what one generation does to them. */
module Patterns {
  import opened Board

  /** A 3×3 field whose only live cell is the centre. */
  const Lonely: Grid := [[0, 0, 0], [0, 1, 0], [0, 0, 0]]

  /** A blinker on a 5×5 field: column 1, rows 0 to 2. */
  const BlinkerV: Grid := [
    [0, 1, 0, 0, 0],
    [0, 1, 0, 0, 0],
    [0, 1, 0, 0, 0],
    [0, 0, 0, 0, 0],
    [0, 0, 0, 0, 0]]

  /** The blinker's other phase: row 1, columns 0 to 2. */
  const BlinkerH: Grid := [
    [0, 0, 0, 0, 0],
    [1, 1, 1, 0, 0],
    [0, 0, 0, 0, 0],
    [0, 0, 0, 0, 0],
    [0, 0, 0, 0, 0]]

  /** The neighbour count spelled out as the sum over the eight offsets. */
  lemma NeighborCountUnfold(g: Grid, px: int, py: int)
    ensures NeighborCount(g, px, py) ==
      Counted(g, px, py, (-1, -1)) + Counted(g, px, py, (-1, 0)) + Counted(g, px, py, (-1, 1))
      + Counted(g, px, py, (0, -1)) + Counted(g, px, py, (0, 1))
      + Counted(g, px, py, (1, -1)) + Counted(g, px, py, (1, 0)) + Counted(g, px, py, (1, 1))
  {
    CountLiveSnoc(g, px, py, Ring, 7);
    CountLiveSnoc(g, px, py, Ring, 6);
    CountLiveSnoc(g, px, py, Ring, 5);
    CountLiveSnoc(g, px, py, Ring, 4);
    CountLiveSnoc(g, px, py, Ring, 3);
    CountLiveSnoc(g, px, py, Ring, 2);
    CountLiveSnoc(g, px, py, Ring, 1);
    CountLiveSnoc(g, px, py, Ring, 0);
    assert Ring[..8] == Ring;
  }

  lemma LonelyCell(x: int, y: int)
    requires 0 <= x < 3 && 0 <= y < 3
    ensures Step(Lonely)[y][x] == 0
  {
    NeighborCountUnfold(Lonely, x, y);
  }

  /** An isolated cell dies and no dead cell has three live neighbours: one
      step empties the field. */
  lemma LonelyCellDies()
    ensures Step(Lonely) == Blank(3, 3)
  {
    forall y, x | 0 <= y < 3 && 0 <= x < 3 ensures Step(Lonely)[y][x] == 0 {
      LonelyCell(x, y);
    }
    assert forall y | 0 <= y < 3 :: Step(Lonely)[y] == Blank(3, 3)[y];
  }

  lemma VerticalToHorizontalCell(x: int, y: int)
    requires 0 <= x < 5 && 0 <= y < 5
    ensures Step(BlinkerV)[y][x] == BlinkerH[y][x]
  {
    NeighborCountUnfold(BlinkerV, x, y);
  }

  lemma VerticalToHorizontal()
    ensures Step(BlinkerV) == BlinkerH
  {
    forall y, x | 0 <= y < 5 && 0 <= x < 5 ensures Step(BlinkerV)[y][x] == BlinkerH[y][x] {
      VerticalToHorizontalCell(x, y);
    }
    assert forall y | 0 <= y < 5 :: Step(BlinkerV)[y] == BlinkerH[y];
  }

  lemma HorizontalToVerticalCell(x: int, y: int)
    requires 0 <= x < 5 && 0 <= y < 5
    ensures Step(BlinkerH)[y][x] == BlinkerV[y][x]
  {
    NeighborCountUnfold(BlinkerH, x, y);
  }

  lemma HorizontalToVertical()
    ensures Step(BlinkerH) == BlinkerV
  {
    forall y, x | 0 <= y < 5 && 0 <= x < 5 ensures Step(BlinkerH)[y][x] == BlinkerV[y][x] {
      HorizontalToVerticalCell(x, y);
    }
    assert forall y | 0 <= y < 5 :: Step(BlinkerH)[y] == BlinkerV[y];
  }

  /** The blinker oscillates with period two. */
  lemma BlinkerOscillates()
    ensures Step(BlinkerV) != BlinkerV
    ensures Step(Step(BlinkerV)) == BlinkerV
  {
    VerticalToHorizontal();
    HorizontalToVertical();
    assert BlinkerH[1][0] != BlinkerV[1][0];
  }
}
