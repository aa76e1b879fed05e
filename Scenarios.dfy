/** Clients of `Application` that show, from the method contracts alone, how
    the handlers behave when driven in sequence. */
module Scenarios {
  import Board
  import opened Life

  /** From speed 5, five presses of "+" reach the top speed and a sixth
      changes nothing; from speed 1, "-" changes nothing. */
  method SpeedLimits() returns (reached: int, afterSixth: int, atOne: int)
    ensures reached == 10 && afterSixth == 10 && atOne == 1
  {
    var app := new Application();
    app.Start();
    app.SpeedUp();
    app.SpeedUp();
    app.SpeedUp();
    app.SpeedUp();
    app.SpeedUp();
    reached := app.speed;
    app.SpeedUp();
    afterSixth := app.speed;
    app.UpdateSpeed(1);
    app.SpeedDown();
    atOne := app.speed;
  }

  /** Starting twice, or stopping twice, changes nothing after the first
      call; the second request reports that nothing happened. */
  method StartStopIdempotent() returns (firstStart: bool, secondStart: bool, firstStop: bool, secondStop: bool)
    ensures firstStart && !secondStart && firstStop && !secondStop
  {
    var app := new Application();
    firstStart := app.TrySetPlayState(Play);
    secondStart := app.TrySetPlayState(Play);
    firstStop := app.TrySetPlayState(Pause);
    secondStop := app.TrySetPlayState(Pause);
  }

  /** Pressing on a dead cell starts a fill drag that makes it alive and
      paints every cell the pointer crosses; pressing again on that live cell
      after releasing starts a clear drag that kills it. */
  method FillThenClear() returns (first: DragState, painted: int, released: DragState, second: DragState, cleared: int)
    ensures first == Fill && painted == 1 && released == Off
    ensures second == DragState.Clear && cleared == 0
  {
    var app := new Application();
    app.StartDrag(3, 4);
    first := app.dragState;
    app.UpdateCoords(5, 4);
    painted := app.field.Get(5, 4);
    app.StopDrag();
    released := app.dragState;
    app.StartDrag(5, 4);
    second := app.dragState;
    cleared := app.field.Get(5, 4);
  }

  /** Clearing and then stepping leaves a dead field, and the game paused. */
  method ClearThenStep(app: Application)
    requires app.Valid()
    modifies app, app.field.cells
    ensures app.Valid() && app.playState == Pause
    ensures Board.IsBlank(app.field.Snapshot())
  {
    app.Clear();
    Board.StepBlank(app.field.Snapshot());
    app.CalcNextState();
  }

  /** Whatever the field held, a press, a move, a release, a generation and
      a toggle leave every cell reading 0 or 1. */
  method CellsStayBinary(app: Application, x: int, y: int, qx: int, qy: int) returns (v: int)
    requires app.Valid()
    requires 0 <= x < app.GridHSize && 0 <= y < app.GridVSize
    modifies app, app.field.cells
    ensures v == 0 || v == 1
  {
    app.StartDrag(x, y);
    app.UpdateCoords(qx % app.GridHSize, y);
    app.StopDrag();
    app.CalcNextState();
    app.SwitchCellState(x, y);
    v := app.field.Get(qx, qy);
  }
}
