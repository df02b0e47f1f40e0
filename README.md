# Snake game engine, modelled in Dafny

A model of the engine of a browser snake game: a snake that moves one cell
per timer tick across a 20 x 20 board, grows when it eats food, speeds up on
a fixed schedule, and resets when it leaves the board or runs into itself,
keeping a high score across resets. The game's state lives in mutable
variables and every operation updates it in place. So the engine is a class,
`SnakeGame.Game`, with one field per variable. Its methods are proved against
pure specification functions in `SnakeRules` and `ScoreText`, and the
properties the game promises are proved about those functions.

- `snake_rules.dfy` (module `SnakeRules`): positions, directions, the step
  of the head (`Shift`), food placement by rejection sampling
  (`FirstFreeIndex`, `FirstFree`, and the retry loop `GenerateFood`), the
  speed schedule (`SpeedUp`, `SpeedAfter`), the collision condition
  (`Collision`), the snake after one move (`Advanced`), and the steering rule
  (`Steered`, `SteeredAll`).
- `score_text.dfy` (module `ScoreText`): the score display. It is the score
  in decimal (`Decimal`), left-padded with `'0'` to three characters
  (`PadStart`, `Pad3`). The module also defines `ValueOf`, which reads the
  text back as a number and serves as the inverse of `Pad3`.
- `game.dfy` (module `SnakeGame`): the class `Game`. Its fields are `snake`,
  `food`, `highScore`, `direction`, `lastDirection`, `gameSpeedDelay`,
  `gameStarted` and `timer`. Its methods are the game's own functions plus
  `Tick`, the timer callback (a move, then a collision check).
  `Valid()` is the invariant that the constructor establishes and that
  `Move`, `StartGame`, `HandleKeyPress`, `Reset`, `CheckCollision` and `Tick`
  require and keep:
  - the food is on the board and off the snake;
  - the speed delay stays in [25, 200];
  - the timer is armed exactly while the game runs, at the current delay;
  - when the snake has two or more segments, its neck is one step behind
    its head, and `direction` is not the reverse of `lastDirection`.

  `IncreaseSpeed`, `UpdateHighscore` and `StopGame` are steps inside `Move`
  and `Reset` and are not proved to keep `Valid()` on their own. Between
  `IncreaseSpeed` and the re-arm that follows it in `Move`, the armed timer
  still fires at the old delay, so the invariant is broken there for a
  moment, as in the game itself (script.js:102-108).

  `Settled(snake)` adds that every segment is on the board and all segments
  are distinct. It holds again after every tick.

The host's randomness is an input. Each food placement receives a sequence
of `Draw`s. Each draw holds the two already-floored rolls `floor(random * 20)`
in [0, 20), taken for x and then for y. A draw proposes the cell
(rx + 1, ry + 1).
Timers are represented only by the `timer` field: `Stopped`, or `Running`
with the delay it was armed at.

Three details of the code shape the model:
- The key handler treats Space specially only while the game is not
  running. Every other press goes to the arrow-key switch, so arrow keys
  steer even before the start (script.js:131-149).
- `resetGame` sets `direction` to right but does not touch `lastDirection`
  (script.js:190-198). So after a game that ended moving left, `direction`
  is the reverse of `lastDirection`. That is why the no-reversal part of
  `Valid()` is only required for snakes of two or more segments. A
  one-segment snake has no neck to run into.
- The collision scan keeps looping after a reset. It is harmless because the
  reset snake has one segment, so the scan stops at once and there is at
  most one reset per check (`CheckCollision`).

## Model

| member | source | states |
|---|---|---|
| `SnakeRules.Shift` | script.js:82-95 | a step moves the head to a neighbouring cell: along its row for right and left, along its column for down and up |
| `SnakeRules.ShiftBack` | script.js:82-95 | a step of the head is undone by exactly one direction, the opposite one |
| `SnakeRules.Candidate` | script.js:64-67 | every proposed food cell, floor(random·20)+1 on each axis, lies on the board |
| `SnakeRules.FirstFreeIndex` | script.js:63-73 | rejection sampling accepts the first attempt whose cell is off the body; every earlier attempt lay on the body |
| `SnakeRules.FirstFreeIsFreeCell` | script.js:63-75 | the food placed is on the board and on no segment of the body it was placed against |
| `SnakeRules.GenerateFood` | script.js:59-76 | the retry loop returns a cell on the board and off the body, namely the first free attempt |
| `SnakeRules.SpeedUp` | script.js:156-169 | one speed step never goes below 25 from at or above 25, strictly shrinks the delay above 25, leaves it unchanged at or below 25, and removes at most 5 |
| `SnakeRules.SpeedUpBoundaries` | script.js:157-166 | the branch boundaries are strict: 150 goes to 147, 151 to 146, 100 and 101 both to 98, 50 and 51 both to 49, 26 and 25 both to 25 |
| `SnakeRules.SpeedAfterBounds` | script.js:156-169 | after any number of foods the delay lies between 25 and where it started |
| `SnakeRules.SpeedAfterReachesFloor` | script.js:156-169 | from a delay d of at least 25, after d − 25 or more foods the delay is exactly 25 |
| `SnakeRules.Collision` | script.js:175-186 | a collision is exactly a head off the board or a head equal to a later segment; a one-segment snake can only hit a wall |
| `SnakeRules.Advanced` | script.js:80-112 | after a move, the head is one step ahead and the old segments follow in order. The length grows by one exactly when the head lands on the food and is unchanged otherwise |
| `SnakeRules.EatingNeverCollides` | script.js:97-109 | a move onto the food never triggers a collision |
| `SnakeRules.TailChaseIsSafe` | script.js:110-112 | moving into the cell the tail is leaving is not a collision, because the tail is dropped before the check |
| `SnakeRules.SettledAfterSafeMove` | script.js:172-187 | after a move without collision, a snake that was on the board with distinct segments still is |
| `SnakeRules.NoStepOntoNeck` | script.js:114 | while the neck is one step behind the head, a direction other than the reverse of the last applied one never steps onto the neck |
| `SnakeRules.StartsGame` | script.js:131-132 | a running game is never restarted by a key; when not running, a press starts the game exactly when its code is "Space" or its key is " " |
| `SnakeRules.Requested` | script.js:136-149 | the four case labels: a key asks for a direction exactly when it is that direction's arrow key name, and a key that is no arrow asks for none |
| `SnakeRules.Steered` | script.js:136-149 | a non-arrow key, Space included, keeps the direction. An arrow that reverses the last applied direction is ignored and keeps it. Any other arrow sets it. So a change is never a reversal |
| `SnakeRules.SteeredAllNeverReverses` | script.js:136-149 | no run of key presses between two ticks can turn a non-reversing direction into the reverse of the last applied one |
| `ScoreText.DigitChar` | script.js:203 | a digit's character is a decimal digit |
| `ScoreText.PadStart` | script.js:203 | the padded text has length max(len, width), ends with the original text, and is filled on the left with the pad character |
| `ScoreText.Decimal` | script.js:203 | the decimal text of a score is non-empty, all digits, and starts with '0' only for zero |
| `ScoreText.DecimalRoundTrip` | script.js:203 | reading the decimal text back gives the score |
| `ScoreText.DecimalLength` | script.js:203 | the decimal text fits in k characters exactly when the score is below 10^k |
| `ScoreText.LeadingZeros` | script.js:203 | the '0's added on the left do not change the value the text reads as |
| `ScoreText.AllZeros` | script.js:203 | a text of only '0's reads as zero |
| `ScoreText.Pad3` | script.js:202-203 | the padded score text reads back as the score, is all digits, at least 3 long, and exactly 3 long for scores below 1000 |
| `ScoreText.PaddedDecimalValue` | script.js:203 | the decimal text left-padded with '0' reads back as the number |
| `ScoreText.PaddedDecimalShape` | script.js:203 | the decimal text left-padded with '0' is all digits, at least 3 long, and exactly 3 long below 1000 |
| `ScoreText.Pad3Injective` | script.js:212 | different scores never show the same text |
| `ScoreText.Pad3OfZero` | script.js:202-203 | a one-segment snake shows "000" |
| `SnakeGame.Game.ScoreDisplay` | script.js:201-203 | the score text shown is at least 3 characters and reads back as snake length − 1 |
| `SnakeGame.Game.constructor` | script.js:9-17 | page load: snake [(10,10)], food placed against it, high score 0, direction and last direction right, delay 200, not started, timer disarmed |
| `SnakeGame.Game.IncreaseSpeed` | script.js:156-169 | the delay becomes the schedule's next value |
| `SnakeGame.Game.Move` | script.js:79-115 | the snake becomes the advanced snake. On the food: new food is placed against the grown snake, the speed steps once and the timer is re-armed at the new delay. Otherwise food and delay stay. In both cases lastDirection becomes direction, and the invariant is kept |
| `SnakeGame.Game.StartGame` | script.js:118-127 | the game runs and the timer is armed at the current delay |
| `SnakeGame.Game.HandleKeyPress` | script.js:130-151 | Space (code or key) when not started starts the game and leaves direction alone. Every other press, arrows before the start included, sets direction by the steering rule against lastDirection. Space while running is a no-op |
| `SnakeGame.Game.UpdateHighscore` | script.js:207-216 | the high score becomes the larger of itself and the current score |
| `SnakeGame.Game.StopGame` | script.js:219-221 | the game is not running and the timer is disarmed |
| `SnakeGame.Game.Reset` | script.js:190-198 | the high score becomes max(high score, final score). Snake becomes [(10,10)], direction right, delay 200. Not running, timer disarmed, food placed off (10,10). lastDirection is unchanged |
| `SnakeGame.Game.CheckCollision` | script.js:172-187 | the game is reset (exactly once, with the pre-collision score) exactly when the head is off the board or on another segment; otherwise nothing changes |
| `SnakeGame.Game.Tick` | script.js:104-107 | one tick keeps the invariant and leaves the snake on the board with distinct segments. With a collision it is a reset. Without one, the snake is the advanced snake and never shorter. Eating adds exactly one to the score and one speed step |

## Left out

- Rendering (`draw`, `drawSnake`, `drawFood`, `createGameElement`, `setPosition`), the show/hide of the instruction text, logo and high-score element, and the element handles: presentation only. The score display is `Game.ScoreDisplay`. The high-score text written at script.js:212 is `ScoreText.Pad3(highScore)`; no field stores it.
- Timer scheduling (`setInterval`/`clearInterval`): host event-loop scheduling. Only which delay is armed is kept, in the `timer` field. `Tick` stands for one firing of the callback, without its `draw()` call.
- `Math.random`: a floating-point host call. It is replaced by the supplied `Draw` sequences, whose rolls are assumed to be already floored into [0, 20).
- `addEventListener`: event wiring. `HandleKeyPress` is what one key event does.
- SnakeRules.GenerateFood: requires that some supplied draw proposes a free cell. The source has no precondition, but it retries forever when no free cell comes up, for instance on a full board, and non-termination is not modelled. `SnakeGame.Game.Move`, `SnakeGame.Game.Reset`, `SnakeGame.Game.CheckCollision`, `SnakeGame.Game.Tick` and `SnakeGame.Game.constructor` pass that requirement on, each only for the food placement it actually performs.
- SnakeGame.Game.Move: requires a running game and `Valid()`, as the timer only fires while the game runs.
- Number width: the game's counts and coordinates are JavaScript numbers that stay tiny, so unbounded integers model them exactly.
