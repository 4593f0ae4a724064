# Snake: grid, movement engine and game bookkeeping

A Dafny model of the core of a browser Snake game. It has three parts.

- The **grid** (`Grids`). A `width` x `height` table of cell values (Empty, Wall, Snake, Apple) surrounded by a ring of walls. It also holds a sparse store of *velocity markers* keyed by cell coordinate.
- The **snake** (`Movement`, `SnakeGame.Snake`). An ordered body of parts, head first.
  - A key press turns the head. When the head has followers, the new velocity is stamped as a marker on the head's cell.
  - A tick first checks the cell ahead for a collision and then grows the snake if that cell holds the apple.
  - The tick then makes one head-to-tail pass. Each part moves by its own velocity. Every part but the head takes the velocity of a marker it lands on, and the tail removes that marker.
- The **game controller's bookkeeping** (`Levels`, `SnakeGame.Game`):
  - the level and speed counters;
  - the `isPlaying`/`isGameOver` flags;
  - reset and restart;
  - placing the apple.

Modules:

- `Options`: the `Option` type, standing for JavaScript's `undefined`.
- `Grids`:
  - the marker store as functions on a sequence: `Find`, `Upsert`, `Without`;
  - the class `Grid` over an `array2` of cells, whose methods change the cells and the store in place.
- `Movement`: the snake's algorithm on values.
  - A body after a pass is `MovedParts` and `MovedMarkers`.
  - A body after eating is `Grown` and `GrownMarkers`.
  - A body after a key is `Turned` and `TurnedMarkers`.
  - The invariant `Coherent` is what "connected as one" (src/snake.js:3-11) means:
    - every non-head part is one orthogonal step behind its predecessor and points at it;
    - no two parts share a cell;
    - markers are unique per cell and lie only under non-tail parts;
    - the velocity each non-head part will hold after its next move is its predecessor's current velocity.
  - Lemmas show that a key, a plain tick and a growing tick each keep `Coherent`.
- `Levels`: how the counters change over a sequence of apples, with a closed form for the state reached from a reset.
- `SnakeGame`: the classes `Snake` and `Game` over the shared grid.
  - `Snake.Update` and `Snake.SetVelocity` are proved against the `Movement` functions.
  - `Game.Valid` is the game's invariant:
    - a coherent snake strictly inside the walls;
    - Snake cells are exactly the body's cells;
    - exactly one Apple cell;
    - counters that follow the closed form;
    - the state machine NotStarted → Playing → GameOver → NotStarted.

The entry points keep `Game.Valid`: the `Game` constructor, `Snake.SetVelocity`, `Snake.Update`, `Game.OnRestart` and `Game.Update`. The helpers they call (`Game.OnGameStart`, `Game.Reset`, `Game.SpawnApple`, `Snake.Reset`, `Snake.AddBodyPart`, `Grid.SetCellValue` and the rest) promise only their own effect, and on their own they can break it. For example, `OnGameStart` on a game whose head is still breaks "a playing snake moves". In-bounds indexing follows from the invariant: the wall ring and the collision check stop the head, and every other part moves into its predecessor's old cell.

The new tail takes the old tail's velocity on the tick it is added. It sits still during that tick's move, lands on the marker stamped under it, takes the marker's velocity and removes it (src/snake.js:117-158). An earlier turn is picked up the same way: the follower that moves into the marked cell takes the new velocity on that same tick. `Movement.TurnScenario` and `Movement.GrowScenario` check both on concrete bodies.

## Model

| member | source | states |
|---|---|---|
| Grids.Find | src/grid.js:45-49 | The result is a marker at exactly (col, row), or None exactly when no marker has that coordinate. When coordinates are unique, it is the only marker there. |
| Grids.Upsert | src/grid.js:51-60 | Afterwards the marker at data's coordinate carries data's velocity. The store grows by one exactly when no marker was there. Lookups at every other coordinate are unchanged. No marker is invented. Unique coordinates stay unique. |
| Grids.Without | src/grid.js:62-66 | No marker is left at (col, row). Lookups at every other coordinate are unchanged. Only old markers remain. The call is a no-op when none was there. Unique coordinates stay unique, and with unique coordinates the store shrinks by exactly one. |
| Grids.Grid.constructor | src/grid.js:4-9 | The grid has the given size, walls on the ring, Empty everywhere else and no markers. |
| Grids.Grid.Reset | src/grid.js:11-14 | Leaves walls on the ring and Empty everywhere else, and empties the marker store. |
| Grids.Grid.SetupCells | src/grid.js:16-24 | Every cell is Empty and the marker store is empty. |
| Grids.Grid.FillRow | src/grid.js:21 | Every cell of the row holds the value, and every other row is unchanged. |
| Grids.Grid.AddOuterWalls | src/grid.js:26-35 | Every cell of rows 0 and height-1 and of columns 0 and width-1 is a wall, and every other cell is unchanged. |
| Grids.Grid.GetCellValue | src/grid.js:37-39 | On a walled grid, every ring cell reads Wall. On a freshly reset grid, every cell reads Wall on the ring and Empty inside. |
| Grids.Grid.SetCellValue | src/grid.js:41-43 | The cell reads back the value. Every other cell is unchanged, and the frame leaves the markers unchanged. |
| Grids.Grid.GetCellVelocity | src/grid.js:45-49 | Returns the marker stored at exactly (col, row), the only one there, or None exactly when there is none. |
| Grids.Grid.SetCellVelocity | src/grid.js:51-60 | The store becomes the upsert of the marker, with unique coordinates kept. |
| Grids.Grid.RemoveCellVelocity | src/grid.js:62-66 | The store becomes the old store with the coordinate filtered out, with unique coordinates kept. |
| Grids.Grid.ForEachCell | src/grid.js:68-74 | Exactly height * width visits. The visit at index row * width + col is (col, row, current value), so each cell is visited once, row 0 first and columns ascending. |
| Grids.Grid.RowVisits | src/grid.js:70-72 | The visits of one row in column order. |
| Grids.Grid.RowsPrefixTraversed | src/grid.js:68-74 | The row-by-row visits of the first rows are in row-major order. |
| Movement.KeyOf | src/snake.js:63-86 | A key code is Up exactly for KeyW and ArrowUp, Left for KeyA and ArrowLeft, Down for KeyS and ArrowDown, Right for KeyD and ArrowRight, and Space for Space. Every other code is Other. |
| Movement.Requested | src/snake.js:63-87 | Up, Left, Down and Right give (0,1), (-1,0), (0,-1) and (1,0), each a unit step. Any other key keeps the velocity. |
| Movement.Changes | src/snake.js:89-90 | Only a direction key can change the head's velocity, and a changed velocity is a unit step. |
| Movement.Turned | src/snake.js:60-90 | The body keeps its length, its followers, the head's cell and so the set of occupied cells. The head holds the requested velocity, and a key that changes nothing leaves the body as it was. |
| Movement.TurnedMarkers | src/snake.js:92-102 | A changing key on a body with followers leaves a copy of the turned head on the head's cell. Otherwise the store is untouched. No other marker is added, and unique coordinates stay unique. |
| Movement.TurnKeepsCoherent | src/snake.js:51-103 | A key press keeps the body coherent, with its cells and followers unchanged and the head holding the requested velocity. A key that changes nothing leaves body and markers as they were. |
| Movement.ReverseCollides | src/snake.js:60-115 | Turning the head straight back at the part behind it aims the head at that part's cell, which the body occupies, so the next tick collides. |
| Movement.PassEffect | src/snake.js:135-161 | For any body, the pass defined by `Moved`, `Adopted`, `Advanced`, `MovedParts` and `MovedMarkers` does the following. Every part moves by the velocity it held before the pass, so a still part stays put. The head keeps its velocity. Every other part takes the velocity of a marker on its new cell, and otherwise keeps its own. Only the marker under the tail's new cell is removed, and only when the tail is not the head. Every other lookup is unchanged and unique coordinates stay unique. On a body ready for the pass, the head becomes its moved self and every other part lands on its predecessor's old cell with its predecessor's old velocity. |
| Movement.MoveReady | src/snake.js:135-161 | A coherent body moving into a free cell meets the pass's preconditions. No part is cleared from a cell an earlier part of the same pass has just entered. |
| Movement.PassKeepsCoherent | src/snake.js:3-11 | After one pass the body is coherent again. It occupies the target cell and every cell but the old tail's, and each part stands where its own velocity took it. |
| Movement.MoveKeepsCoherent | src/snake.js:135-161 | A tick into a free cell keeps the body coherent with the same length. The head takes the target cell, every other part takes its predecessor's old cell, and the old tail's cell is vacated. |
| Movement.Grown | src/snake.js:123-129 | The grown body is one part longer and covers exactly the same cells. |
| Movement.GrownMarkers | src/snake.js:118-121 | The tail's cell holds a copy of the tail, meaning its coordinate and velocity. No other marker is added, and unique coordinates stay unique. |
| Movement.TailUnmarked | src/snake.js:118-121 | No marker lies under the tail, so eating stamps a fresh marker holding the tail's velocity there. |
| Movement.GrowFootprint | src/snake.js:123-129 | The grown body occupies the same cells, and no part of its pass clobbers a cell entered earlier in that pass. |
| Movement.GrowReady | src/snake.js:117-131 | The grown body, with the stamped marker, meets the pass's preconditions and keeps the same cells and target. |
| Movement.GrowKeepsCoherent | src/snake.js:117-161 | A tick onto the apple leaves a coherent body that covers the old body plus the apple's cell. |
| Movement.GrowTail | src/snake.js:117-159 | By the end of the same tick the body is one part longer. The new tail sits where the old tail was, with the old tail's velocity, and the marker stamped for it is gone. |
| Movement.TurnScenario | src/snake.js:135-161 | Three parts moving east turn north. The follower reaching the marked cell takes the new velocity on that tick, and the tail takes it one tick later and removes the marker. |
| Movement.GrowScenario | src/snake.js:117-161 | A lone part eats. The grown part stays on the old cell, takes the old velocity and removes the marker, all on the same tick. |
| SnakeGame.Snake.Start | src/snake.js:29-34 | The reset part is still and sits at half the width and half the height, rounded down. On a grid of at least 3 by 3 it is strictly inside the walls. |
| SnakeGame.Snake.TargetInBounds | src/snake.js:109 | The cell ahead of a moving head is a valid index into the grid. |
| SnakeGame.Snake.Upcoming | src/snake.js:105-133 | An idle tick happens exactly when the head is still. A target on the wall ring or on the body, including the current tail's cell, is a collision. Eat and Step only happen into a free cell strictly inside the walls. |
| SnakeGame.Snake.constructor | src/snake.js:13-17 | One still part in the middle of the grid, marked Snake, and every other cell unchanged. |
| SnakeGame.Snake.Reset | src/snake.js:22-24 | One still part at (width/2, height/2) rounded down, marked Snake, and every other cell unchanged. |
| SnakeGame.Snake.SetupBodyParts | src/snake.js:26-37 | One still part at (width/2, height/2) rounded down, marked Snake, and every other cell unchanged. |
| SnakeGame.Snake.AddBodyPart | src/snake.js:39-41 | The part is appended to the body. |
| SnakeGame.Snake.SetVelocity | src/snake.js:51-103 | While the game is over, Space restarts the game and every other key changes nothing. Otherwise the body and markers become the turned ones, and the game is playing exactly when it was or the key changed the velocity. Cells, counters and `lastUpdated` are unchanged and the game stays valid. |
| SnakeGame.Snake.Steer | src/snake.js:60-102 | The head takes the requested velocity. A changed velocity marks the game started and, with followers, stamps a marker on the head's cell. |
| SnakeGame.Snake.Update | src/snake.js:105-162 | The game stays valid. It is over exactly when the tick collides. An idle or colliding tick moves nothing. A step moves the body by the pass. Eating grows, moves, counts the apple and places the new one. Other cells are unchanged. |
| SnakeGame.Snake.Advance | src/snake.js:135-161 | A step gives the pass's body and markers. Snake cells are the new body's cells, the vacated cells are Empty, the apple stays put and the snake stays valid. |
| SnakeGame.Snake.Grow | src/snake.js:117-161 | Eating stamps the tail, appends a still part, counts the apple, places the new apple and runs the pass over the longer body. Snake cells are the new body's cells, the new apple is the only apple and every other cell is unchanged. |
| SnakeGame.Snake.MoveBodyParts | src/snake.js:135-161 | The loop's result is the pass's body and markers. The cells entered are Snake, the cells vacated and not re-entered are Empty, and every other cell is unchanged. |
| SnakeGame.Snake.MovePart | src/snake.js:136-160 | One part's turn clears its cell, marks its new cell, adopts a marker unless it is the head, and removes the marker if it is the tail. |
| SnakeGame.PassKeepsBoard | src/snake.js:135-161 | A pass between cells inside the walls keeps the walls, keeps one apple, and leaves Snake exactly on the entered cells. |
| SnakeGame.StepKeepsBoard | src/snake.js:135-161 | A pass into an empty cell leaves a valid snake and the apple where it was. |
| SnakeGame.GrowKeepsBoard | src/snake.js:117-161 | A growing tick leaves a valid, moving snake that covers the old body plus the apple's cell. The new apple is the only one. |
| SnakeGame.TurnKeepsGame | src/snake.js:51-103 | A key press keeps the game's invariant. |
| SnakeGame.Game.constructor | src/game.js:7-19 | A new game is valid, in the restarted state, with the apple at the given cell. |
| SnakeGame.Game.RestartedIsValid | src/game.js:208-216 | The state a restart leaves satisfies the game's invariant. |
| SnakeGame.Game.PlayingIfMoving | src/snake.js:92-94 | A moving head means the game has started. |
| SnakeGame.Game.Reset | src/game.js:21-28 | The counters are back at their start values: the initial interval, no apples, no level-up and not at the top level. lastUpdated is cleared and shouldUpdate is set. |
| SnakeGame.Game.SpawnApple | src/game.js:175-185 | The apple goes into the given Empty cell. No other cell and no counter changes. |
| SnakeGame.Game.OnAppleEaten | src/game.js:187-197 | The counters become the one-apple step of the level progression, and the new apple is placed. |
| SnakeGame.Game.OnGameStart | src/game.js:199-201 | Sets isPlaying and changes nothing else. |
| SnakeGame.Game.OnGameOver | src/game.js:203-206 | Clears isPlaying, sets isGameOver and changes nothing else. |
| SnakeGame.Game.OnRestart | src/game.js:208-216 | Grid, snake and counters are reset, the game is no longer over, one apple stands at the given cell, and the game is valid. |
| SnakeGame.Game.Update | src/game.js:97-99 | A game that is over changes nothing. Otherwise the snake ticks, and the game is over exactly when the tick collides. The counters move only when an apple is eaten. |
| Levels.Initial | src/game.js:21-28 | The reset counters: the initial interval, no apples, no level-up time and not at the top level. |
| Levels.AfterApple | src/game.js:187-194 | The count rises by one. The interval changes only on a multiple of the apples per level before the top level, and never rises. The top level, once reached, is final and fixes the interval. Reaching it means the floor. Counters in range stay in range. |
| Levels.AfterApples | src/game.js:187-194 | The count rises by the number of apples. |
| Levels.ReachedStep | src/game.js:190-193 | Each apple keeps the counters in the closed form. |
| Levels.InitialReached | src/game.js:21-28 | The reset counters are in the closed form. |
| Levels.ReachedInRange | src/game.js:190-193 | Counters in the closed form have their interval between the floor and the initial value, and at the floor at the top level. |
| Levels.LevelFormula | src/game.js:187-194 | From a reset, after n apples the interval is the larger of the initial interval less one decrement per completed level and the floor. The top level is reached exactly when a completed level lands on the floor. |
| Levels.DelayNeverIncreases | src/game.js:190-191 | Over any sequence of apples the interval never increases and stays in range. |
| Levels.MaxLevelIsFinal | src/game.js:190-193 | Once the top level is reached, no apple changes the interval or the last level-up time. |

## Left out

- Shadow DOM, canvas, resizing, rendering and text drawing (src/game.js:30-85, 106-173): these are drawing and DOM work only.
- Frame loop (src/game.js:87-104): the `requestAnimationFrame` loop and its timestamp gate are frame scheduling over floating-point timestamps. Only the `isGameOver` guard is modelled, as `Game.Update`. Only that loop stamps `lastUpdated`; `reset` clears it (src/game.js:25, in `Game.Reset`).
- `shouldUpdate`: it is set by `reset` and never read by the core.
- Random apple choice (src/game.js:179-182): the `Random.arrayIndex` rejection loop is replaced by a caller-supplied cell that must be Empty. The loop calls code that is not part of this model, and it never ends on a full board.
- Keyboard and element wiring (src/snake.js:19, src/game.js:219): the keyboard listener and `customElements.define` are event wiring. Key codes map to the `Key` enum through `Movement.KeyOf`.
- The snake's back-reference to its game: the game is passed to `SetVelocity` and `Update` as a parameter.
- Numbers are unbounded `int`. The game's constants are abstract, with width and height at least 3, 0 < minimum ≤ maximum interval, and a positive decrement and apples-per-level. A timestamp is a `real`.
- Grids.Grid.Reset: refills the one cell array in place. The source builds new row arrays, which no other object holds.
- Grids.Grid.ForEachCell: returns the sequence of visits instead of calling a visitor. A visitor that changed the grid mid-traversal is not modelled.
- SnakeGame.Snake.Update: requires a game that is not over. `Game.Update` is its only caller and checks this first.
- SnakeGame.Snake.Update: states the cells a tick leaves only through the game's invariant and "unchanged elsewhere". The exact cell formula is on `Advance` and `Grow`.
- SnakeGame.Game.Update: states the cells exactly only for a finished game. Otherwise it relies on `Snake.Update`'s contract and the game's invariant.
- Head and tail accessors, `Snake.Head` and `Snake.Tail`: they are plain reads of the first and last part, so they carry no contract of their own.
