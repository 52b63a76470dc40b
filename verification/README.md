# Snake game state machine in Dafny

This project models the game logic of a browser snake game: the single React
component `src/components/SnakeGame.tsx`. The snake moves on a 20 × 20 grid
of integer cells. It grows by one segment and scores 10 points for each piece
of food it eats. The game ends when the head leaves the board or runs into
the body. The player steers with the arrow keys, pauses with the space bar or
the pause button, and restarts with a reset button that keeps the best score.

The component keeps its state in separate React state hooks. The model keeps
all of it in one immutable `Session` record, and each handler becomes a pure
transition on that record:

- `grid.dfy` (module `Grid`): cells, the board bound, the four headings and
  the one-cell move.
- `engine.dfy` (module `Engine`): the session, the initial state, the
  collision test (as a predicate and as the scanning loop the game runs),
  the tick step `Step` and the restart `Reset`.
- `input.dfy` (module `Input`): the key handler `OnKey` with its reversal
  guard, and the pause toggle.
- `properties.dfy` (module `Properties`): the laws of one tick, the
  invariant of every reachable session, runs of events and ticks, and
  concrete games.

The random food generator becomes an argument of type `GridCell`, a cell on
the board. As in the code, that cell may lie under the snake.

Three behaviours of the code that the model keeps:

- The key guard compares a key only with the committed heading, so two
  turns between ticks can reverse the snake into its neck.
  `QuickTurnEndsGame` shows this from the initial state: Left, then Down,
  then one tick ends the game.
- The food generator does not avoid the snake, and neither does the model.
- The self-collision scan covers every segment except the current head,
  including the tail that is about to move.

## Model

| member | source | states |
|---|---|---|
| Grid.Move | src/components/SnakeGame.tsx:64-78 | the new head is adjacent to the old one, and lies above, below, left or right of it exactly when the heading is up, down, left or right |
| Grid.MoveUndo | src/components/SnakeGame.tsx:64-78 | a second move returns the head to where it started exactly when its heading is the opposite of the first; this is why a reversal hits the neck |
| Engine.Initial | src/components/SnakeGame.tsx:12-24 | the first session has snake (8,8),(8,9), food at (5,5), heading up, both scores 0, and neither paused nor over |
| Engine.CheckCollision | src/components/SnakeGame.tsx:43-59 | the wall checks plus the scan over `snake.slice(1)` report a hit exactly when the head is off the board or equals a segment other than the first, tail included |
| Engine.NextHead | src/components/SnakeGame.tsx:64-78 | the cell the head moves to is adjacent to the current head and different from it |
| Engine.Step | src/components/SnakeGame.tsx:61-96 | a paused or finished game is returned unchanged; the heading and pause flag are never changed; the snake never gets shorter; the score stays the same or rises by 10; the best score never falls and can only become the current score |
| Engine.Reset | src/components/SnakeGame.tsx:34-41 | restarting gives the initial snake, the supplied food, heading up, score 0 and both flags false, and keeps the best score |
| Input.TogglePause | src/components/SnakeGame.tsx:190 | the pause flag flips and every other field is unchanged, whether or not the game is over |
| Input.OnKey | src/components/SnakeGame.tsx:99-117 | an arrow key changes only the heading; the heading becomes the key's heading exactly when that is not the opposite of the committed heading, and a reversing key leaves the session unchanged; space is the pause toggle; other keys do nothing |
| Input.TogglePauseInvolution | src/components/SnakeGame.tsx:113-114 | pausing twice restores the session |
| Properties.StepCollision | src/components/SnakeGame.tsx:80-86 | on a colliding tick the game ends; snake, food, score, heading and pause flag are unchanged; the best score becomes the larger of the best and current scores |
| Properties.StepGrowth | src/components/SnakeGame.tsx:88-95 | on a tick without collision, the head moves one cell along the committed heading, each other segment takes the place of the one ahead of it, and the length grows by 1 exactly when the food is eaten |
| Properties.StepScore | src/components/SnakeGame.tsx:89-93 | the score rises by exactly 10 if and only if the new head is on the food, and otherwise is unchanged; the food is replaced by the supplied cell on that tick and on no other |
| Properties.StepHighScore | src/components/SnakeGame.tsx:80-86 | a tick changes the best score only on the tick that ends the game, and only to a current score that is higher |
| Properties.InitialInv | src/components/SnakeGame.tsx:12-19 | the initial session satisfies the invariant |
| Properties.PrependKeeps | src/components/SnakeGame.tsx:88-95 | a new head that is on the board, adjacent to the old head and not on the body, placed in front of the body with or without its tail, keeps the snake on the board, connected and self-avoiding |
| Properties.StepInv | src/components/SnakeGame.tsx:43-95 | a tick preserves the invariant: non-empty, on the board, connected, no cell used twice, food on the board, scores non-negative multiples of 10 |
| Properties.OnKeyInv | src/components/SnakeGame.tsx:99-117 | a key press preserves the invariant |
| Properties.ResetInv | src/components/SnakeGame.tsx:34-41 | a restart preserves the invariant |
| Properties.ResetIsInitial | src/components/SnakeGame.tsx:34-41 | a restart is the initial session with the new food and the old best score, and restarting twice with the same food is the same as once |
| Properties.Apply | src/components/SnakeGame.tsx:98-197 | no single event (tick, key, pause click, restart) empties the snake or lowers the best score |
| Properties.Run | src/components/SnakeGame.tsx:98-126 | over any sequence of events the best score never goes down |
| Properties.Ticks | src/components/SnakeGame.tsx:123-126 | over a run of timer ticks the score never goes down and changes by a multiple of 10; heading and pause flag stay as they were |
| Properties.RunInv | src/components/SnakeGame.tsx:12-117 | every sequence of events from a session satisfying the invariant ends in a session satisfying it |
| Properties.ReachableInv | src/components/SnakeGame.tsx:9-95 | every session reachable from the initial one satisfies the invariant; in particular every snake segment lies on the 20 × 20 board |
| Properties.FrozenTicks | src/components/SnakeGame.tsx:62 | when the game is paused or over, any number of ticks leaves the session exactly as it was |
| Properties.TicksAreRun | src/components/SnakeGame.tsx:123-126 | a run of ticks is the same as the run of the matching tick events |
| Properties.FirstTickUp | src/components/SnakeGame.tsx:12-95 | from the initial state, one tick with the food not in the way gives snake (8,7),(8,8) and changes nothing else |
| Properties.EatingTick | src/components/SnakeGame.tsx:88-95 | heading up from (5,6) with food at (5,5), the snake grows onto (5,5), the score rises by 10 and the food moves to the supplied cell |
| Properties.WallTick | src/components/SnakeGame.tsx:43-86 | heading left from (0,0) with score 30 and best 0, the game ends and the best score becomes 30 |
| Properties.RestartKeepsBest | src/components/SnakeGame.tsx:34-41 | a restart after a finished game with best score 50 gives score 0, a running game, the initial snake and best score 50 |
| Properties.QuickTurnEndsGame | src/components/SnakeGame.tsx:53-111 | from the initial state, Left, then Down, then one tick ends the game: the committed heading ends up as the reverse of the one last moved along |

## Left out

- Rendering, styling, icons and the on-screen text (lines 128-210): they only read the state.
- The timer (`setInterval`, 150 ms) and registering and removing the keydown listener (lines 98-126). The model applies events one at a time through `Run` and `Ticks`.
- `Math.random` in the food generator (lines 26-32). It becomes an in-grid argument, and nothing stops it from landing on the snake.
- React's state batching and stale closures. Each handler is modelled as one atomic transition on one `Session`.
- `CELL_SIZE` and `INITIAL_SPEED` (lines 10-11): rendering and timing only.
- Engine.Step: requires a non-empty snake when the game is running. The code would read `snake[0]` of an empty array there, but no reachable session has an empty snake (`ReachableInv`).
- JavaScript numbers are doubles. Scores are modelled as unbounded integers, which is exact for every score a game can reach.
