/** The game's controller: the current field, the speed throttle, the
    play/pause flag and the drag state that the pointer and button handlers
    drive. */
module Life {
  import Board
  import opened Field

  /** `Int.switch`: toggles a cell value between 0 and 1. */
  function Switch(v: int): int {
    1 - v
  }

  /** Switching twice gives back the original value, and on {0, 1} switching
      swaps the two values. */
  lemma SwitchInvolution(v: int)
    ensures Switch(Switch(v)) == v
    ensures v == 0 || v == 1 ==> Switch(v) != v && (Switch(v) == 0 || Switch(v) == 1)
  {
  }

  /** `Point.floorTo` on whole pixels: the index of the cell of side
      `cellSize` that holds pixel `p`. */
  function FloorTo(p: int, cellSize: int): (cell: int)
    requires cellSize > 0
    ensures cell * cellSize <= p < (cell + 1) * cellSize
  {
    p / cellSize
  }

  lemma MulMonotonic(a: int, b: int, k: int)
    requires a <= b && k >= 0
    ensures a * k <= b * k
  {
    assert b * k - a * k == (b - a) * k;
  }

  /** Every pixel of a cell maps to that cell: `FloorTo` is the unique cell
      index whose span contains the pixel. */
  lemma FloorToUnique(p: int, cellSize: int, cell: int)
    requires cellSize > 0
    requires cell * cellSize <= p < (cell + 1) * cellSize
    ensures FloorTo(p, cellSize) == cell
  {
    var r := FloorTo(p, cellSize);
    if r < cell {
      MulMonotonic(r + 1, cell, cellSize);
    } else if r > cell {
      MulMonotonic(cell + 1, r, cellSize);
    }
  }

  /** The pixel at the centre of a cell maps back to that cell. */
  lemma FloorToCentre(cell: int, cellSize: int)
    requires cellSize > 0
    ensures FloorTo(cell * cellSize + cellSize / 2, cellSize) == cell
  {
    assert (cell + 1) * cellSize == cell * cellSize + cellSize;
    FloorToUnique(cell * cellSize + cellSize / 2, cellSize, cell);
  }

  datatype PlayState = Play | Pause

  datatype DragState = Off | Fill | Clear

  class Application {
    const GridVSize: nat := 40
    const GridHSize: nat := 40
    const TopSpeed: int := 10

    var field: GameField
    var speed: int
    var playState: PlayState
    var dragState: DragState

    /** The field has the application's dimensions, every cell of it is 0
        or 1, and the speed lies between 0 and the top speed. */
    ghost predicate Valid()
      reads this, field.cells
    {
      field.Valid() && field.vSize == GridVSize && field.hSize == GridHSize
      && Board.IsBinary(field.Snapshot())
      && 0 <= speed <= TopSpeed
    }

    constructor ()
      ensures Valid() && fresh(field) && fresh(field.cells)
      ensures field.Snapshot() == Board.Blank(GridVSize, GridHSize)
      ensures speed == 0 && playState == Pause && dragState == Off
    {
      field := new GameField(GridVSize, GridHSize);
      speed := 0;
      playState := Pause;
      dragState := Off;
    }

    /** The speed set when the page is built. */
    method Start()
      requires Valid()
      modifies this`speed
      ensures Valid() && speed == 5
    {
      UpdateSpeed(5);
    }

    // -------------------------------------------------------------------
    // Speed throttle

    /** Takes a new speed if it lies in [0, TopSpeed]; any other request is
        ignored. */
    method UpdateSpeed(newSpeed: int)
      requires Valid()
      modifies this`speed
      ensures Valid()
      ensures speed == if 0 <= newSpeed <= TopSpeed then newSpeed else old(speed)
    {
      if !(0 <= newSpeed <= TopSpeed) {
        return;
      }
      speed := newSpeed;
    }

    /** One step faster, except at the top speed, where nothing changes. */
    method SpeedUp()
      requires Valid()
      modifies this`speed
      ensures Valid()
      ensures speed == if old(speed) < TopSpeed then old(speed) + 1 else old(speed)
    {
      UpdateSpeed(speed + 1);
    }

    /** One step slower, except at speed 1 or below, where nothing changes. */
    method SpeedDown()
      requires Valid()
      modifies this`speed
      ensures Valid()
      ensures speed == if old(speed) <= 1 then old(speed) else old(speed) - 1
    {
      if speed <= 1 {
        return;
      }
      UpdateSpeed(speed - 1);
    }

    // -------------------------------------------------------------------
    // Play / pause

    /** Moves to `state` and reports true, or reports false and changes
        nothing when `state` is already the current one. */
    method TrySetPlayState(state: PlayState) returns (changed: bool)
      modifies this`playState
      ensures changed == (old(playState) != state)
      ensures playState == state
    {
      if playState != state {
        playState := state;
        changed := true;
      } else {
        changed := false;
      }
    }

    /** Switches to playing; when already playing, nothing happens. */
    method StartLife()
      modifies this`playState
      ensures playState == Play
    {
      var changed := TrySetPlayState(Play);
      if !changed {
        // already playing: the animation is not launched a second time
        return;
      }
      // here the Kotlin code launches the animation, which is not modelled
    }

    /** Switches to paused; when already paused, nothing happens. */
    method StopLife()
      modifies this`playState
      ensures playState == Pause
    {
      var changed := TrySetPlayState(Pause);
      if !changed {
        // already paused: there is no animation to cancel
        return;
      }
      // here the Kotlin code cancels the animation, which is not modelled
    }

    /** The start/stop button: flips between playing and paused. */
    method StartStopLife()
      modifies this`playState
      ensures playState == if old(playState) == Play then Pause else Play
    {
      if playState != Play {
        StartLife();
      } else {
        StopLife();
      }
    }

    // -------------------------------------------------------------------
    // Field operations

    /** Kills every cell, then pauses. */
    method Clear()
      requires Valid()
      modifies field.cells, this`playState
      ensures Valid()
      ensures field.Snapshot() == Board.Blank(GridVSize, GridHSize)
      ensures playState == Pause
    {
      for i := 0 to field.hSize
        invariant Valid()
        invariant forall y, x :: 0 <= y < GridVSize && 0 <= x < i ==> field.cells[y, x] == 0
      {
        for j := 0 to field.vSize
          invariant Valid()
          invariant forall y, x :: 0 <= y < GridVSize && 0 <= x < i ==> field.cells[y, x] == 0
          invariant forall y :: 0 <= y < j ==> field.cells[y, i] == 0
        {
          ghost var before := field.Snapshot();
          field.Set(i, j, 0);
          Board.UpdateBinary(before, i, j, 0);
        }
      }
      ghost var blank := Board.Blank(GridVSize, GridHSize);
      assert forall y | 0 <= y < GridVSize :: field.Snapshot()[y] == blank[y];
      StopLife();
    }

    /** The number of live neighbours of (px, py) on the current field. */
    method CalcNeighbors(px: int, py: int) returns (count: int)
      requires Valid()
      ensures count == Board.NeighborCount(field.Snapshot(), px, py)
    {
      ghost var g := field.Snapshot();
      ghost var visited := 0;
      count := 0;
      for x := px - 1 to px + 2
        invariant visited == 3 * (x - px + 1)
        invariant count == Board.CountLive(g, px, py, Board.Window[..visited])
      {
        for y := py - 1 to py + 2
          invariant visited == 3 * (x - px + 1) + (y - py + 1)
          invariant count == Board.CountLive(g, px, py, Board.Window[..visited])
        {
          ghost var before := count;
          if !(0 <= x < GridHSize) || !(0 <= y < GridVSize) || (x == px && y == py) {
          } else if field.Get(x, y) != 0 {
            count := count + 1;
          }
          Board.NeighborLoopStep(g, GridVSize, GridHSize, px, py, x, y, visited, before, count);
          visited := visited + 1;
        }
      }
      assert Board.Window[..9] == Board.Window;
      Board.WindowCount(g, px, py);
    }

    /** Replaces the field by its next generation, every cell computed from
        the old field. */
    method CalcNextState()
      requires Valid()
      modifies this`field
      ensures Valid() && fresh(field.cells)
      ensures field.Snapshot() == Board.Step(old(field.Snapshot()))
    {
      ghost var g := field.Snapshot();
      var newField := new GameField(GridVSize, GridHSize);
      for y := 0 to GridVSize
        invariant Valid() && field == old(field) && fresh(newField.cells) && field.Snapshot() == g
        invariant newField.Valid() && newField.vSize == GridVSize && newField.hSize == GridHSize
        invariant forall yy, xx :: 0 <= yy < y && 0 <= xx < GridHSize ==>
          newField.cells[yy, xx] == Board.StepAt(g, xx, yy)
      {
        for x := 0 to GridHSize
          invariant Valid() && field == old(field) && fresh(newField.cells) && field.Snapshot() == g
          invariant newField.Valid() && newField.vSize == GridVSize && newField.hSize == GridHSize
          invariant forall yy, xx :: 0 <= yy < y && 0 <= xx < GridHSize ==>
            newField.cells[yy, xx] == Board.StepAt(g, xx, yy)
          invariant forall xx :: 0 <= xx < x ==> newField.cells[y, xx] == Board.StepAt(g, xx, y)
        {
          var neighbors := CalcNeighbors(x, y);
          var state := field.Get(x, y);
          var newState :=
            if state == 0 && neighbors == 3 then 1
            else if state == 1 && 2 <= neighbors <= 3 then 1
            else 0;
          newField.Set(x, y, newState);
          assert newField.cells[y, x] == Board.StepAt(g, x, y);
        }
      }
      Board.StepBinary(g);
      field := newField;
      ghost var next := Board.Step(g);
      assert forall yy | 0 <= yy < GridVSize :: field.Snapshot()[yy] == next[yy];
    }

    // -------------------------------------------------------------------
    // Dragging

    /** Pointer down on cell (x, y): from `Off`, starts filling when the cell
        was dead and clearing otherwise, and toggles the cell. In any other
        drag state nothing happens. */
    method StartDrag(x: int, y: int)
      requires Valid()
      requires 0 <= x < GridHSize && 0 <= y < GridVSize
      modifies this`dragState, field.cells
      ensures Valid()
      ensures old(dragState) != Off ==>
        dragState == old(dragState) && field.Snapshot() == old(field.Snapshot())
      ensures old(dragState) == Off ==>
        dragState == (if old(field.Get(x, y)) == 0 then Fill else DragState.Clear)
        && field.Snapshot() == Board.Update(old(field.Snapshot()), x, y, Switch(old(field.Get(x, y))))
      ensures old(dragState) == Off ==> (field.Get(x, y) == 1 <==> dragState == Fill)
    {
      if dragState != Off {
        return;
      }
      var filler := Switch(field.Get(x, y));
      dragState := if filler == 1 then Fill else DragState.Clear;
      SwitchCellState(x, y);
    }

    /** Toggles the cell at (x, y). */
    method SwitchCellState(x: int, y: int)
      requires Valid()
      requires 0 <= x < GridHSize && 0 <= y < GridVSize
      modifies field.cells
      ensures Valid()
      ensures field.Snapshot() == Board.Update(old(field.Snapshot()), x, y, Switch(old(field.Get(x, y))))
    {
      ghost var before := field.Snapshot();
      var newState := Switch(field.Get(x, y));
      field.Set(x, y, newState);
      Board.UpdateBinary(before, x, y, newState);
    }

    /** Pointer move onto cell (x, y): while filling writes 1 there, while
        clearing writes 0, otherwise changes no cell. */
    method UpdateCoords(x: int, y: int)
      requires Valid()
      requires 0 <= x < GridHSize && 0 <= y < GridVSize
      modifies field.cells
      ensures Valid()
      ensures field.Snapshot() == match dragState
        case Fill => Board.Update(old(field.Snapshot()), x, y, 1)
        case Clear => Board.Update(old(field.Snapshot()), x, y, 0)
        case Off => old(field.Snapshot())
    {
      ghost var before := field.Snapshot();
      match dragState
      case Clear =>
        field.Set(x, y, 0);
        Board.UpdateBinary(before, x, y, 0);
      case Fill =>
        field.Set(x, y, 1);
        Board.UpdateBinary(before, x, y, 1);
      case Off =>
    }

    /** Pointer up (or out): ends any drag. */
    method StopDrag()
      modifies this`dragState
      ensures dragState == Off
    {
      if dragState == Off {
        return;
      }
      dragState := Off;
    }
  }
}
