/** The Game of Life board as a value: a row-major grid `g[y][x]` of cell
    values with hard edges, and Conway's B3/S23 rule on it. This is the
    specification the imperative `GameField` and `Application` are proved
    against. */
module Board {

  type Grid = seq<seq<int>>

  /** A displacement (dx, dy) from a cell to a cell of its 3×3 window. */
  type Offset = (int, int)

  /** `g` has `vSize` rows of `hSize` cells each. */
  predicate IsGrid(g: Grid, vSize: int, hSize: int) {
    |g| == vSize && forall y :: 0 <= y < |g| ==> |g[y]| == hSize
  }

  /** Column `x` of row `y` is a cell of `g`. */
  predicate InGrid(g: Grid, x: int, y: int) {
    0 <= y < |g| && 0 <= x < |g[y]|
  }

  /** Every cell of `g` is dead. */
  predicate IsBlank(g: Grid) {
    forall y, x :: 0 <= y < |g| && 0 <= x < |g[y]| ==> g[y][x] == 0
  }

  /** Every cell of `g` is 0 or 1. */
  predicate IsBinary(g: Grid) {
    forall y, x :: 0 <= y < |g| && 0 <= x < |g[y]| ==> g[y][x] == 0 || g[y][x] == 1
  }

  /** The all-dead grid of the given size. */
  function Blank(vSize: nat, hSize: nat): (g: Grid)
    ensures IsGrid(g, vSize, hSize) && IsBlank(g)
  {
    seq(vSize, _ => seq(hSize, _ => 0))
  }

  /** Bounds-checked read: a cell off the grid reads as dead. */
  function At(g: Grid, x: int, y: int): int {
    if InGrid(g, x, y) then g[y][x] else 0
  }

  /** `g` with the one cell (x, y) replaced by `v`. */
  function Update(g: Grid, x: int, y: int, v: int): Grid
    requires InGrid(g, x, y)
  {
    g[y := g[y][x := v]]
  }

  /** Writing a cell changes that cell to `v`, no other cell, and not the shape. */
  lemma UpdateAt(g: Grid, x: int, y: int, v: int, qx: int, qy: int)
    requires InGrid(g, x, y)
    ensures forall vSize, hSize :: IsGrid(g, vSize, hSize) ==> IsGrid(Update(g, x, y, v), vSize, hSize)
    ensures At(Update(g, x, y, v), qx, qy) == if qx == x && qy == y then v else At(g, qx, qy)
  {
  }

  /** Writing 0 or 1 into a field of zeros and ones keeps it a field of
      zeros and ones. */
  lemma UpdateBinary(g: Grid, x: int, y: int, v: int)
    requires InGrid(g, x, y) && IsBinary(g)
    requires v == 0 || v == 1
    ensures IsBinary(Update(g, x, y, v))
  {
  }

  // ---------------------------------------------------------------------
  // Neighbours

  /** The 3×3 window around a cell, in the order the Kotlin `calcNeighbors`
      loops visit it:
      column by column (dx outer), top to bottom within a column (dy inner). */
  const Window: seq<Offset> := [(-1, -1), (-1, 0), (-1, 1), (0, -1), (0, 0), (0, 1), (1, -1), (1, 0), (1, 1)]

  /** The eight neighbour offsets: the window without its centre. */
  const Ring: seq<Offset> := [(-1, -1), (-1, 0), (-1, 1), (0, -1), (0, 1), (1, -1), (1, 0), (1, 1)]

  /** 1 when the cell at offset `o` from (px, py) is a live neighbour:
      it is on the grid, it is not the centre, and it holds a non-zero value. */
  function Counted(g: Grid, px: int, py: int, o: Offset): nat {
    if o == (0, 0) || !InGrid(g, px + o.0, py + o.1) then 0
    else if g[py + o.1][px + o.0] != 0 then 1
    else 0
  }

  /** The number of offsets in `offs` that hit a live neighbour of (px, py). */
  function CountLive(g: Grid, px: int, py: int, offs: seq<Offset>): (n: nat)
    ensures n <= |offs|
  {
    if offs == [] then 0
    else CountLive(g, px, py, offs[..|offs| - 1]) + Counted(g, px, py, offs[|offs| - 1])
  }

  /** Counting one more offset adds that offset's contribution. */
  lemma CountLiveSnoc(g: Grid, px: int, py: int, offs: seq<Offset>, k: nat)
    requires k < |offs|
    ensures CountLive(g, px, py, offs[..k + 1]) == CountLive(g, px, py, offs[..k]) + Counted(g, px, py, offs[k])
  {
    assert offs[..k + 1][..k] == offs[..k];
  }

  /** The number of live neighbours of (px, py); at most eight. */
  function NeighborCount(g: Grid, px: int, py: int): (n: nat)
    ensures n <= 8
  {
    CountLive(g, px, py, Ring)
  }

  lemma {:induction false} CountLiveAppend(g: Grid, px: int, py: int, a: seq<Offset>, b: seq<Offset>)
    ensures CountLive(g, px, py, a + b) == CountLive(g, px, py, a) + CountLive(g, px, py, b)
    decreases |b|
  {
    if b != [] {
      var b' := b[..|b| - 1];
      assert (a + b)[..|a + b| - 1] == a + b';
      CountLiveAppend(g, px, py, a, b');
    } else {
      assert a + b == a;
    }
  }

  /** Counting over the whole 3×3 window, centre included, gives the
      neighbour count: the centre never counts. */
  lemma WindowCount(g: Grid, px: int, py: int)
    ensures CountLive(g, px, py, Window) == NeighborCount(g, px, py)
  {
    assert Window == Ring[..4] + [(0, 0)] + Ring[4..];
    assert Ring == Ring[..4] + Ring[4..];
    CountLiveAppend(g, px, py, Ring[..4] + [(0, 0)], Ring[4..]);
    CountLiveAppend(g, px, py, Ring[..4], [(0, 0)]);
    CountLiveAppend(g, px, py, Ring[..4], Ring[4..]);
    assert CountLive(g, px, py, [(0, 0)]) == 0 by {
      assert [(0, 0)][..0] == [];
    }
  }

  /** Offset (dx, dy) sits at position 3 * (dx + 1) + (dy + 1) of the window,
      the position at which the nested loops of `calcNeighbors` visit it. */
  lemma WindowAt(dx: int, dy: int)
    requires -1 <= dx <= 1 && -1 <= dy <= 1
    ensures Window[3 * (dx + 1) + (dy + 1)] == (dx, dy)
  {
    if dx == -1 {
    } else if dx == 0 {
    } else {
    }
  }

  /** Visiting offset (dx, dy), the k-th of the window, adds its
      contribution to the count over the offsets visited before it. */
  lemma WindowPrefixStep(g: Grid, px: int, py: int, dx: int, dy: int, k: int)
    requires -1 <= dx <= 1 && -1 <= dy <= 1 && k == 3 * (dx + 1) + (dy + 1)
    ensures 0 <= k < 9
    ensures CountLive(g, px, py, Window[..k + 1]) == CountLive(g, px, py, Window[..k]) + Counted(g, px, py, (dx, dy))
  {
    WindowAt(dx, dy);
    CountLiveSnoc(g, px, py, Window, k);
  }

  /** One visit of the inner loop of `calcNeighbors`, at cell (x, y) of a
      `vSize × hSize` grid: it skips the cell when it is off the grid or is
      the centre, and otherwise adds one when the cell reads as non-zero.
      Doing so extends the count over the window's first `k` offsets to the
      first `k + 1`. */
  lemma NeighborLoopStep(g: Grid, vSize: int, hSize: int, px: int, py: int, x: int, y: int,
                         k: int, before: int, after: int)
    requires IsGrid(g, vSize, hSize)
    requires px - 1 <= x <= px + 1 && py - 1 <= y <= py + 1
    requires k == 3 * (x - px + 1) + (y - py + 1)
    requires before == CountLive(g, px, py, Window[..k])
    requires after == before +
      if !(0 <= x < hSize) || !(0 <= y < vSize) || (x == px && y == py) then 0
      else if At(g, x, y) != 0 then 1
      else 0
    ensures 0 <= k < 9
    ensures after == CountLive(g, px, py, Window[..k + 1])
  {
    WindowPrefixStep(g, px, py, x - px, y - py, k);
  }

  /** The live neighbours of (px, py) as a set of cells: the cells of the grid
      other than (px, py) whose coordinates differ by at most one in each
      direction and whose value is non-zero. */
  function LiveNeighbors(g: Grid, px: int, py: int): set<(int, int)> {
    set x: int, y: int | px - 1 <= x <= px + 1 && py - 1 <= y <= py + 1 && (x, y) != (px, py)
                         && InGrid(g, x, y) && g[y][x] != 0 :: (x, y)
  }

  /** The cells the offsets in `offs` reach from (px, py) and that count. */
  function LivePoints(g: Grid, px: int, py: int, offs: seq<Offset>): set<(int, int)> {
    set o | o in offs && Counted(g, px, py, o) == 1 :: Reach(px, py, o)
  }

  predicate Distinct(offs: seq<Offset>) {
    forall i, j :: 0 <= i < j < |offs| ==> offs[i] != offs[j]
  }

  /** The cell offset `o` reaches from (px, py). */
  function Reach(px: int, py: int, o: Offset): (int, int) {
    (px + o.0, py + o.1)
  }

  lemma LivePointsSnoc(g: Grid, px: int, py: int, init: seq<Offset>, last: Offset)
    ensures LivePoints(g, px, py, init + [last])
         == LivePoints(g, px, py, init) + if Counted(g, px, py, last) == 1 then {Reach(px, py, last)} else {}
  {
    var offs := init + [last];
    forall o ensures o in offs <==> o in init || o == last {
      if o in offs {
        var i :| 0 <= i < |offs| && offs[i] == o;
        if i < |init| { assert init[i] == o; }
      }
    }
  }

  lemma ReachFresh(g: Grid, px: int, py: int, init: seq<Offset>, last: Offset)
    requires last !in init
    ensures Reach(px, py, last) !in LivePoints(g, px, py, init)
  {
  }

  lemma {:induction false} LivePointsCount(g: Grid, px: int, py: int, offs: seq<Offset>)
    requires Distinct(offs)
    ensures |LivePoints(g, px, py, offs)| == CountLive(g, px, py, offs)
    decreases |offs|
  {
    if offs == [] {
      assert LivePoints(g, px, py, offs) == {};
    } else {
      var init, last := offs[..|offs| - 1], offs[|offs| - 1];
      assert offs == init + [last];
      assert Distinct(init);
      assert last !in init by {
        forall i | 0 <= i < |init| ensures init[i] != last {
          assert init[i] == offs[i];
        }
      }
      LivePointsCount(g, px, py, init);
      LivePointsSnoc(g, px, py, init, last);
      ReachFresh(g, px, py, init, last);
    }
  }

  lemma RingDistinct()
    ensures Distinct(Ring)
  {
  }

  /** Every non-zero offset of the 3×3 window is one of the eight in `Ring`. */
  lemma InRing(o: Offset)
    requires -1 <= o.0 <= 1 && -1 <= o.1 <= 1 && o != (0, 0)
    ensures o in Ring
  {
    if o.0 == -1 {
      assert o == Ring[o.1 + 1];
    } else if o.0 == 0 {
      assert o == if o.1 == -1 then Ring[3] else Ring[4];
    } else {
      assert o == Ring[o.1 + 6];
    }
  }

  lemma NeighborCountIsCardinality(g: Grid, px: int, py: int)
    ensures NeighborCount(g, px, py) == |LiveNeighbors(g, px, py)|
  {
    RingDistinct();
    LivePointsCount(g, px, py, Ring);
    var live, points := LiveNeighbors(g, px, py), LivePoints(g, px, py, Ring);
    forall q | q in live ensures q in points {
      var o := (q.0 - px, q.1 - py);
      InRing(o);
      assert Counted(g, px, py, o) == 1;
      assert (px + o.0, py + o.1) == q;
    }
    assert live == points;
  }

  // ---------------------------------------------------------------------
  // The rule

  /** Conway's rule for one cell: a dead cell with exactly three live
      neighbours is born, a live cell with two or three survives, every other
      cell is dead in the next generation. */
  function NextState(state: int, neighbors: int): int {
    if state == 0 && neighbors == 3 then 1
    else if state == 1 && 2 <= neighbors <= 3 then 1
    else 0
  }

  /** The next state of cell (x, y) of `g`. */
  function StepAt(g: Grid, x: int, y: int): int {
    NextState(At(g, x, y), NeighborCount(g, x, y))
  }

  /** The next generation of `g`, every cell computed from `g` alone. */
  function Step(g: Grid): (r: Grid)
    ensures |r| == |g| && forall y :: 0 <= y < |g| ==> |r[y]| == |g[y]|
  {
    seq(|g|, y requires 0 <= y < |g| => seq(|g[y]|, x => StepAt(g, x, y)))
  }

  /** Stepping keeps the grid's dimensions. */
  lemma StepShape(g: Grid, vSize: int, hSize: int)
    requires IsGrid(g, vSize, hSize)
    ensures IsGrid(Step(g), vSize, hSize)
  {
  }

  /** B3/S23: a cell is alive in the next generation if and only if it was
      dead with exactly three live neighbours or alive with two or three,
      neighbours being the live cells around it on the old generation;
      otherwise it is dead. */
  lemma StepCell(g: Grid, x: int, y: int)
    requires InGrid(g, x, y)
    ensures var n := |LiveNeighbors(g, x, y)|;
      (Step(g)[y][x] == 1 <==> (g[y][x] == 0 && n == 3) || (g[y][x] == 1 && (n == 2 || n == 3)))
    ensures Step(g)[y][x] == 0 || Step(g)[y][x] == 1
  {
    NeighborCountIsCardinality(g, x, y);
  }

  /** Every cell of the next generation is 0 or 1, whatever values the old
      generation held. */
  lemma StepBinary(g: Grid)
    ensures IsBinary(Step(g))
  {
  }

  lemma {:induction false} CountLiveBlank(g: Grid, px: int, py: int, offs: seq<Offset>)
    requires IsBlank(g)
    ensures CountLive(g, px, py, offs) == 0
    decreases |offs|
  {
    if offs != [] {
      CountLiveBlank(g, px, py, offs[..|offs| - 1]);
    }
  }

  /** A dead field stays dead: no cell of a blank grid has a live neighbour. */
  lemma StepBlank(g: Grid)
    requires IsBlank(g)
    ensures Step(g) == g
  {
    forall y, x | 0 <= y < |g| && 0 <= x < |g[y]| ensures Step(g)[y][x] == g[y][x] {
      CountLiveBlank(g, x, y, Ring);
    }
    assert forall y | 0 <= y < |g| :: Step(g)[y] == g[y];
  }
}
