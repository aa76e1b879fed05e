# Yet Another Game of Life — verified model of the game logic

This project models the game logic of a browser Game of Life written in
Kotlin/JS. It covers the following parts:

- **The game field.** `GameField` is a fixed `vSize × hSize` grid of integer
  cells stored row by row. Reads are bounds-checked and writes are not.
- **The next generation.** `calcNextState` applies Conway's B3/S23 rule on a
  grid with hard edges. It counts neighbours with `calcNeighbors` and builds
  a fresh field from the old one.
- **The controller state** that the page's handlers drive:
  - the speed throttle (`updateSpeed`, `speedUp`, `speedDown`);
  - the play/pause flag (`trySetPlayState`, `startLife`, `stopLife`,
    `startStopLife`);
  - `clear`;
  - the drag state machine (`startDrag`, the painting branch of
    `updateCoords`, `stopDrag`) and the `Int.switch` toggle.

The project has these files:

- `Board.dfy` (module `Board`): the specification as values. A grid is
  `seq<seq<int>>` read as `g[y][x]`. It defines:
  - `At`, the bounds-checked read;
  - `Update`, the write of one cell;
  - the neighbour count, both as a count over the eight offsets and as the
    size of the set of live neighbour cells;
  - `Step`, one generation of the rule.
- `Field.dfy` (module `Field`): class `GameField` over an `array2<int>`
  indexed `[y, x]`. `Snapshot()` is its value as a `Board.Grid`, and every
  operation is proved against `Board`.
- `Life.dfy` (module `Life`): `Int.switch`, `Point.floorTo` on whole pixels,
  and class `Application`. The class holds `field`, `speed`, `playState` and
  `dragState`. The Kotlin nested loops (`clear`, `calcNeighbors`,
  `calcNextState`) are `for` loops with invariants, proved against
  `Board.NeighborCount` and `Board.Step`.
- `Patterns.dfy`: known patterns. An isolated cell dies, and a blinker
  oscillates with period two.
- `Scenarios.dfy`: clients that drive `Application` through sequences of
  handler calls. They use only the method contracts.

Two facts about the code shape the invariants:

- **Speed range.** `updateSpeed` accepts any value in `0..10`
  (src/main/kotlin/Life.kt:150), and the initial speed is 0
  (src/main/kotlin/Life.kt:65). Only `speedDown` refuses to go below 1
  (src/main/kotlin/Life.kt:162). So `Application.Valid()` keeps
  `0 <= speed <= 10`. After `Start` sets 5, no handler lowers the speed below 1.
- **Cell values.** `GameField.set` stores any integer, so `GameField` is
  modelled with integer cells. The rule is applied literally:
  - a neighbour counts when it is non-zero;
  - a cell is born only from state 0 and survives only from state 1.

  Every write the application makes is 0 or 1: `clear` writes 0, the rule
  yields 0 or 1, `switch` toggles a 0/1 cell, and painting writes 0 or 1. So
  `Application.Valid()` also keeps every cell of its field at 0 or 1. On such
  fields the rule is B3/S23 (`Board.StepCell`).

## Model

| member | source | states |
|---|---|---|
| `Field.GameField.constructor` | src/main/kotlin/Life.kt:428-429 | a new field has the requested dimensions and every cell is 0 |
| `Field.GameField.Get` | src/main/kotlin/Life.kt:431-441 | never fails; returns 0 for any coordinate outside `[0,hSize) × [0,vSize)` and the stored cell otherwise (`Board.At` of the field's value) |
| `Field.GameField.Set` | src/main/kotlin/Life.kt:443-449 | on an in-bounds cell: the field's new value is the old one with exactly that cell replaced, dimensions unchanged, and a later `Get` of that cell returns the written value |
| `Board.UpdateAt` | src/main/kotlin/Life.kt:443-449 | writing one cell changes that cell to the written value, reads of every other coordinate are unchanged, and the grid keeps its shape |
| `Board.NeighborCount` | src/main/kotlin/Life.kt:254-269 | the neighbour count lies in `[0,8]` |
| `Board.NeighborCountIsCardinality` | src/main/kotlin/Life.kt:254-269 | the neighbour count equals the number of in-grid cells other than the centre, at most one step away in each direction, holding a non-zero value; off-grid coordinates never count |
| `Board.WindowCount` | src/main/kotlin/Life.kt:255-262 | counting over the whole 3×3 window, which the source visits while skipping the centre, gives the neighbour count |
| `Life.Application.CalcNeighbors` | src/main/kotlin/Life.kt:254-269 | the nested loops return exactly `Board.NeighborCount` of the current field |
| `Board.Step` | src/main/kotlin/Life.kt:228-248 | the next generation has the same number of rows and the same row lengths |
| `Board.StepShape` | src/main/kotlin/Life.kt:228-229 | a `vSize × hSize` field steps to a `vSize × hSize` field |
| `Board.StepCell` | src/main/kotlin/Life.kt:230-244 | for the rule `Board.NextState`, a cell is 1 after a step iff it was 0 with exactly three live neighbours or 1 with two or three (neighbours counted on the old field), and every new cell is 0 or 1 |
| `Board.StepBinary` | src/main/kotlin/Life.kt:235-243 | every cell of the next generation is 0 or 1, whatever the old field held |
| `Board.UpdateBinary` | src/main/kotlin/Life.kt:443-449 | writing 0 or 1 into a field of zeros and ones keeps it a field of zeros and ones |
| `Board.StepBlank` | src/main/kotlin/Life.kt:228-248 | an all-dead field stays all-dead |
| `Life.Application.CalcNextState` | src/main/kotlin/Life.kt:228-252 | the field is replaced by a fresh one equal to `Board.Step` of the old field, so no cell is computed from a partly updated generation; dimensions are kept |
| `Patterns.LonelyCellDies` | src/main/kotlin/Life.kt:235-242 | a 3×3 field with only the centre alive steps to the all-dead field |
| `Patterns.BlinkerOscillates` | src/main/kotlin/Life.kt:228-248 | a vertical blinker on a 5×5 field changes after one step and returns after two |
| `Life.Application.Clear` | src/main/kotlin/Life.kt:217-226 | afterwards every cell is 0 and the game is paused, whatever the play state was |
| `Scenarios.ClearThenStep` | src/main/kotlin/Life.kt:217-248 | clearing and then stepping leaves an all-dead field and the game paused |
| `Life.Application.constructor` | src/main/kotlin/Life.kt:49-76 | a 40×40 all-dead field, speed 0, paused, no drag; the invariant (cells 0 or 1, speed in `[0,10]`) holds |
| `Life.Application.Start` | src/main/kotlin/Life.kt:135 | building the page sets the speed to 5 |
| `Life.Application.UpdateSpeed` | src/main/kotlin/Life.kt:149-155 | a request in `[0,10]` becomes the speed; any other request changes nothing; the speed stays in `[0,10]` |
| `Life.Application.SpeedUp` | src/main/kotlin/Life.kt:157-159 | the speed goes up by one, except at 10, where nothing changes |
| `Life.Application.SpeedDown` | src/main/kotlin/Life.kt:161-166 | the speed goes down by one, except at 1 or below, where nothing changes |
| `Scenarios.SpeedLimits` | src/main/kotlin/Life.kt:149-166 | from 5, five speed-ups reach 10 and a sixth stays at 10; from 1 a speed-down stays at 1 |
| `Life.Application.TrySetPlayState` | src/main/kotlin/Life.kt:200-208 | returns false and changes nothing when the state is already the requested one; otherwise sets it and returns true |
| `Life.Application.StartLife` | src/main/kotlin/Life.kt:176-190 | afterwards the game is playing; when it already was, nothing changes |
| `Life.Application.StopLife` | src/main/kotlin/Life.kt:192-198 | afterwards the game is paused; when it already was, nothing changes |
| `Life.Application.StartStopLife` | src/main/kotlin/Life.kt:168-174 | flips playing and paused |
| `Scenarios.StartStopIdempotent` | src/main/kotlin/Life.kt:204-208 | a second start or a second stop reports that nothing happened |
| `Life.SwitchInvolution` | src/main/kotlin/Life.kt:22 | for `Life.Switch`, switching twice is the identity; on 0 and 1 switching swaps the two values |
| `Life.Application.StartDrag` | src/main/kotlin/Life.kt:295-308 | acts only when no drag is under way: picks FILL iff the cell under the pointer was 0, otherwise CLEAR, toggles that cell and no other, so the cell is afterwards 1 iff the drag is FILL; in any other drag state nothing changes |
| `Life.Application.SwitchCellState` | src/main/kotlin/Life.kt:271-293 | the cell under the pointer is replaced by its switched value and no other cell changes |
| `Life.Application.UpdateCoords` | src/main/kotlin/Life.kt:379-387 | while filling the cell under the pointer becomes 1, while clearing it becomes 0, no other cell changes; with no drag the field is unchanged |
| `Life.Application.StopDrag` | src/main/kotlin/Life.kt:316-322 | afterwards no drag is under way |
| `Scenarios.CellsStayBinary` | src/main/kotlin/Life.kt:217-387 | starting from any valid application, after a press, a paint move, a release, a generation and a toggle, every cell reads 0 or 1 |
| `Scenarios.FillThenClear` | src/main/kotlin/Life.kt:295-322 | a press on a dead cell starts FILL and painting sets cells to 1; after release, a press on a live cell starts CLEAR and kills it |
| `Life.FloorTo` | src/main/kotlin/Life.kt:422-426 | the cell index of a pixel is the unique index whose span of `cellSize` pixels contains it |
| `Life.FloorToUnique` | src/main/kotlin/Life.kt:422-426 | any index whose span contains the pixel is the one `FloorTo` returns |
| `Life.FloorToCentre` | src/main/kotlin/Life.kt:422-426 | the pixel at the centre of a cell maps back to that cell |

## Left out

- Rendering is not modelled: the DOM and canvas drawing (`redraw`, `redrawCanvas`, `setSize`, `setPosition`, `px`), the page builder in `start` apart from its `updateSpeed(5)`, `updateRenderer` and `updateButtonStates`. They draw and have no checkable behaviour.
- The animation is not modelled. This covers the coroutine that `startLife` launches and `stopLife` cancels, and `AnimationTimer`. They depend on the coroutine scheduler, the display's frame callback and wall-clock time. Only the play/pause flag they follow is modelled.
- Pointer coordinates are taken as cell indices that are already resolved and on the field. `eventToCoords` clamps and rounds `Double` pixel positions. This keeps every snapped point inside the scene, so the unchecked `set` it feeds stays in bounds.
- `Life.FloorTo`: it models `Point.floorTo` on whole pixels, because `Point.floorTo` divides and floors `Double` values. For a positive cell size, Dafny's integer division is the floor.
- The cursor position (`mouseX`, `mouseY`, `setMouseCoords`) is not modelled. It only feeds drawing. `mouseOutHandler` resets it and then calls `stopDrag`, which is modelled.
- The checks that an event is a `MouseEvent` are not modelled. A wrong event type only makes a handler return early.
- `println` logging is not modelled.
- The `IntPoint` overloads of `get`/`set` and the helpers `currentState`, `getStateOf` and `setStateOf` are represented by the `(x, y)` forms. They only delegate.
- Storage is a single `array2<int>`. The Kotlin `Array<IntArray>` is an array of row arrays, and the rows are never shared or exposed, so row aliasing is not modelled.
- Kotlin's 32-bit `Int` is modelled as unbounded `int`. `get` tests `x + 1 in 1..hSize`, and that test gives the same answer as `x in 0 until hSize` even when `x + 1` wraps. All other arithmetic stays within `[-1, 41]`.
