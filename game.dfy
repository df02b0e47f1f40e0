/** The game engine: the state the browser game keeps in module-level
    variables, and the operations that update it in place. */
module SnakeGame {
  import opened SnakeRules
  import ScoreText

  /** The repeating tick timer: not armed, or firing every delay milliseconds. */
  datatype Timer = Stopped | Running(delay: int)

  function Max(a: int, b: int): int {
    if a >= b then a else b
  }

  class Game {
    /** Head first, tail last. */
    var snake: seq<Pos>
    var food: Pos
    var highScore: int
    /** The direction the next tick moves in. */
    var direction: Direction
    /** The direction the last tick moved in. */
    var lastDirection: Direction
    /** Milliseconds between ticks. */
    var gameSpeedDelay: int
    var gameStarted: bool
    var timer: Timer

    /** What holds between any two operations: the food is on the board and
        off the snake, the interval stays within the schedule, the timer is
        armed exactly while the game runs and fires at the current interval,
        and a snake of two or more segments has its neck one step behind its
        head, opposite to a direction the next tick cannot reverse. */
    ghost predicate Valid()
      reads this
    {
      |snake| >= 1 && InGrid(food) && food !in snake && highScore >= 0 &&
      MIN_DELAY <= gameSpeedDelay <= INITIAL_DELAY &&
      timer == (if gameStarted then Running(gameSpeedDelay) else Stopped) &&
      (|snake| >= 2 ==>
        snake[0] == Shift(snake[1], lastDirection) && direction != Opposite(lastDirection))
    }

    /** The current score: one point per piece of food eaten. */
    function Score(): int
      reads this
    {
      |snake| - 1
    }

    /** The cell the next tick moves the head into. */
    function NextHead(): Pos
      reads this
      requires |snake| >= 1
    {
      Shift(snake[0], direction)
    }

    /** The score display's text: at least three characters, and it reads
        back as the score. */
    function ScoreDisplay(): (text: string)
      reads this
      requires |snake| >= 1
      ensures ScoreText.ValueOf(text) == Score() && |text| >= ScoreText.WIDTH
    {
      ScoreText.Pad3(Score())
    }

    /** The state a reset leaves behind, given the snake, high score and last
        applied direction just before it and the draws its food placement sees. */
    ghost predicate IsResetFrom(before: seq<Pos>, oldHigh: int, oldLast: Direction, draws: seq<Draw>)
      reads this
    {
      snake == [CENTER] &&
      HasFree([CENTER], draws) && food == FirstFree([CENTER], draws) &&
      direction == Right && lastDirection == oldLast &&
      gameSpeedDelay == INITIAL_DELAY && !gameStarted && timer == Stopped &&
      highScore == Max(oldHigh, |before| - 1)
    }

    /** The state at page load; draws are the random rolls the first food
        placement sees. */
    constructor (draws: seq<Draw>)
      requires HasFree([CENTER], draws)
      ensures Valid() && Settled(snake)
      ensures snake == [CENTER] && food == FirstFree([CENTER], draws)
      ensures highScore == 0 && direction == Right && lastDirection == Right
      ensures gameSpeedDelay == INITIAL_DELAY && !gameStarted && timer == Stopped
    {
      var first := GenerateFood([CENTER], draws);
      snake := [CENTER];
      food := first;
      highScore := 0;
      direction := Right;
      gameSpeedDelay := INITIAL_DELAY;
      gameStarted := false;
      lastDirection := Right;
      timer := Stopped;
    }

    /** Shortens the tick interval by the schedule's step. */
    method IncreaseSpeed()
      modifies this`gameSpeedDelay
      ensures gameSpeedDelay == SpeedUp(old(gameSpeedDelay))
    {
      if gameSpeedDelay > 150 {
        gameSpeedDelay := gameSpeedDelay - 5;
      } else if gameSpeedDelay > 100 {
        gameSpeedDelay := gameSpeedDelay - 3;
      } else if gameSpeedDelay > 50 {
        gameSpeedDelay := gameSpeedDelay - 2;
      } else if gameSpeedDelay > 25 {
        gameSpeedDelay := gameSpeedDelay - 1;
      }
    }

    /** One step of the snake. The head moves one cell in the current
        direction; on the food the snake keeps its tail, new food is placed
        against the grown body (draws are the rolls that placement sees), the
        game speeds up and the timer is re-armed at the new interval;
        otherwise the tail is dropped. */
    method Move(draws: seq<Draw>)
      requires Valid() && gameStarted
      requires NextHead() == food ==> HasFree(Advanced(snake, direction, food), draws)
      modifies this
      ensures Valid() && gameStarted
      ensures snake == Advanced(old(snake), old(direction), old(food))
      ensures direction == old(direction) && lastDirection == direction
      ensures highScore == old(highScore)
      ensures if old(NextHead()) == old(food) then
          food == FirstFree(snake, draws) && gameSpeedDelay == SpeedUp(old(gameSpeedDelay))
        else
          food == old(food) && gameSpeedDelay == old(gameSpeedDelay)
    {
      var head := Shift(snake[0], direction);
      snake := [head] + snake;
      if head == food {
        food := GenerateFood(snake, draws);
        IncreaseSpeed();
        timer := Running(gameSpeedDelay);
      } else {
        snake := snake[..|snake| - 1];
      }
      lastDirection := direction;
    }

    /** Arms the timer at the current interval and marks the game running. */
    method StartGame()
      requires Valid()
      modifies this`gameStarted, this`timer
      ensures Valid() && gameStarted && timer == Running(gameSpeedDelay)
    {
      gameStarted := true;
      timer := Running(gameSpeedDelay);
    }

    /** Space starts a game that is not running; every other press is
        steering, whether or not the game runs. */
    method HandleKeyPress(ev: KeyEvent)
      requires Valid()
      modifies this`gameStarted, this`timer, this`direction
      ensures Valid()
      ensures if StartsGame(old(gameStarted), ev) then
          gameStarted && direction == old(direction)
        else
          gameStarted == old(gameStarted) && timer == old(timer) &&
          direction == Steered(old(direction), lastDirection, ev.key)
    {
      if (!gameStarted && ev.code == "Space") || (!gameStarted && ev.key == " ") {
        StartGame();
      } else {
        if ev.key == "ArrowRight" {
          if lastDirection != Left { direction := Right; }
        } else if ev.key == "ArrowDown" {
          if lastDirection != Up { direction := Down; }
        } else if ev.key == "ArrowLeft" {
          if lastDirection != Right { direction := Left; }
        } else if ev.key == "ArrowUp" {
          if lastDirection != Down { direction := Up; }
        }
      }
    }

    /** Records the current score as the high score when it beats it. */
    method UpdateHighscore()
      modifies this`highScore
      ensures highScore == Max(old(highScore), Score())
    {
      var currentScore := Score();
      if currentScore > highScore {
        highScore := currentScore;
      }
    }

    /** Disarms the timer and marks the game not running. */
    method StopGame()
      modifies this`gameStarted, this`timer
      ensures !gameStarted && timer == Stopped
    {
      timer := Stopped;
      gameStarted := false;
    }

    /** Ends the game: the high score takes in the final score, the game
        stops, and snake, food, direction and interval start over. The last
        applied direction is left as it was. */
    method Reset(draws: seq<Draw>)
      requires Valid() && HasFree([CENTER], draws)
      modifies this
      ensures Valid() && Settled(snake)
      ensures IsResetFrom(old(snake), old(highScore), old(lastDirection), draws)
    {
      UpdateHighscore();
      StopGame();
      snake := [CENTER];
      food := GenerateFood(snake, draws);
      direction := Right;
      gameSpeedDelay := INITIAL_DELAY;
    }

    /** Resets the game when the head has left the board or runs into the
        body, and changes nothing otherwise. The scan of the body goes on
        after a reset, over the single segment then left. */
    method CheckCollision(draws: seq<Draw>)
      requires Valid()
      requires Collision(snake) ==> HasFree([CENTER], draws)
      modifies this
      ensures Valid()
      ensures Collision(old(snake)) ==>
        IsResetFrom(old(snake), old(highScore), old(lastDirection), draws)
      ensures !Collision(old(snake)) ==> unchanged(this)
    {
      var head := snake[0];
      if head.x < 1 || head.x > GRID_SIZE || head.y < 1 || head.y > GRID_SIZE {
        Reset(draws);
      }
      var i := 1;
      while i < |snake|
        invariant 1 <= i
        invariant Valid()
        invariant head == old(snake)[0]
        invariant
          (unchanged(this) && InGrid(head) &&
           forall j :: 1 <= j < i && j < |snake| ==> snake[j] != head) ||
          (Collision(old(snake)) &&
           IsResetFrom(old(snake), old(highScore), old(lastDirection), draws))
      {
        if head == snake[i] {
          Reset(draws);
        }
        i := i + 1;
      }
    }

    /** One timer tick: move, then check for a collision. The head never
        collides on the food; without a collision the snake is settled again
        and has at least its old length; with one, the game is reset. */
    method Tick(foodDraws: seq<Draw>, resetDraws: seq<Draw>)
      requires Valid() && Settled(snake) && gameStarted
      requires NextHead() == food ==> HasFree(Advanced(snake, direction, food), foodDraws)
      requires Collision(Advanced(snake, direction, food)) ==> HasFree([CENTER], resetDraws)
      modifies this
      ensures Valid() && Settled(snake)
      ensures var moved := Advanced(old(snake), old(direction), old(food));
        if Collision(moved) then
          IsResetFrom(moved, old(highScore), old(direction), resetDraws)
        else
          snake == moved && gameStarted && highScore == old(highScore) &&
          direction == old(direction) && lastDirection == old(direction)
      ensures |snake| == 1 || |snake| >= |old(snake)|
      ensures if old(NextHead()) == old(food) then
          |snake| == |old(snake)| + 1 && food == FirstFree(snake, foodDraws) &&
          gameSpeedDelay == SpeedUp(old(gameSpeedDelay))
        else
          !Collision(Advanced(old(snake), old(direction), old(food))) ==>
            food == old(food) && gameSpeedDelay == old(gameSpeedDelay)
    {
      ghost var before, dir, meal := snake, direction, food;
      Move(foodDraws);
      if Shift(before[0], dir) == meal {
        EatingNeverCollides(before, dir, meal);
      }
      CheckCollision(resetDraws);
      if !Collision(Advanced(before, dir, meal)) {
        SettledAfterSafeMove(before, dir, meal);
      }
    }
  }

  /** A fresh snake at the centre, started with Space and ticked once to the
      right with the food elsewhere, is one segment at (11, 10) scoring "000";
      an arrow key pressed before the start already steers. */
  method OpeningScenario() {
    var draws := [Draw(0, 0)];
    assert Candidate(draws[0]) !in [CENTER];
    var g := new Game(draws);
    assert g.food == Pos(1, 1);
    g.HandleKeyPress(KeyEvent("ArrowUp", "ArrowUp"));
    assert g.direction == Up && !g.gameStarted;
    g.HandleKeyPress(KeyEvent("ArrowRight", "ArrowRight"));
    g.HandleKeyPress(KeyEvent("Space", " "));
    assert g.gameStarted && g.direction == Right;
    g.Tick([], []);
    assert g.snake == [Pos(11, 10)] && g.food == Pos(1, 1);
    assert g.gameSpeedDelay == INITIAL_DELAY;
    ScoreText.Pad3OfZero();
    assert g.ScoreDisplay() == "000";
  }
}
