/** The pure rules of the snake game: grid positions, directions, food
    placement by rejection sampling, the speed schedule, collision
    detection and the steering rule that forbids reversing. */
module SnakeRules {

  /** The board is GRID_SIZE x GRID_SIZE cells, numbered from 1 on each axis. */
  const GRID_SIZE: int := 20
  /** Where a fresh snake starts. */
  const CENTER: Pos := Pos(10, 10)
  /** Tick interval, in milliseconds, of a fresh game. */
  const INITIAL_DELAY: int := 200
  /** The last threshold of the speed schedule: at or below it the interval no longer shrinks. */
  const MIN_DELAY: int := 25

  datatype Option<T> = None | Some(value: T)

  datatype Pos = Pos(x: int, y: int)

  datatype Direction = Up | Down | Left | Right

  function Opposite(d: Direction): Direction {
    match d
    case Up => Down
    case Down => Up
    case Left => Right
    case Right => Left
  }

  predicate InGrid(p: Pos) {
    1 <= p.x <= GRID_SIZE && 1 <= p.y <= GRID_SIZE
  }

  /** The cell one step from p in direction d (y grows downwards): a
      neighbour of p, in the same row for left and right and in the same
      column for up and down. */
  function Shift(p: Pos, d: Direction): (q: Pos)
    ensures (q.y == p.y && (q.x == p.x + 1 || q.x == p.x - 1)) ||
            (q.x == p.x && (q.y == p.y + 1 || q.y == p.y - 1))
    ensures q.y == p.y <==> d == Left || d == Right
  {
    match d
    case Right => Pos(p.x + 1, p.y)
    case Down => Pos(p.x, p.y + 1)
    case Left => Pos(p.x - 1, p.y)
    case Up => Pos(p.x, p.y - 1)
  }

  /** A step is undone exactly by a step in the opposite direction. */
  lemma ShiftBack(p: Pos, a: Direction, b: Direction)
    ensures Shift(Shift(p, a), b) == p <==> b == Opposite(a)
  {
  }

  // ---------------------------------------------------------------------
  // Food placement

  /** One roll of the host's random source, already scaled and floored:
      floor(random * GRID_SIZE), which lies in [0, GRID_SIZE). */
  type Roll = r: int | 0 <= r < GRID_SIZE

  /** The two rolls of one attempt, for x and then for y. */
  datatype Draw = Draw(rx: Roll, ry: Roll)

  /** The cell an attempt proposes; every attempt lands on the board. */
  function Candidate(d: Draw): (p: Pos)
    ensures InGrid(p)
  {
    Pos(d.rx + 1, d.ry + 1)
  }

  /** Some attempt in draws proposes a cell off the body, so rejection
      sampling over draws ends. */
  ghost predicate HasFree(body: seq<Pos>, draws: seq<Draw>) {
    exists k :: 0 <= k < |draws| && Candidate(draws[k]) !in body
  }

  /** The index of the attempt that rejection sampling accepts: the first
      one whose cell is off the body. */
  function FirstFreeIndex(body: seq<Pos>, draws: seq<Draw>): (k: nat)
    requires HasFree(body, draws)
    ensures k < |draws| && Candidate(draws[k]) !in body
    ensures forall j :: 0 <= j < k ==> Candidate(draws[j]) in body
    decreases |draws|
  {
    if Candidate(draws[0]) !in body then 0
    else
      assert HasFree(body, draws[1..]) by {
        var k :| 0 <= k < |draws| && Candidate(draws[k]) !in body;
        assert k != 0 && draws[1..][k - 1] == draws[k];
      }
      var k := FirstFreeIndex(body, draws[1..]);
      assert forall j :: 1 <= j <= k ==> draws[j] == draws[1..][j - 1];
      k + 1
  }

  /** The cell rejection sampling settles on. */
  function FirstFree(body: seq<Pos>, draws: seq<Draw>): Pos
    requires HasFree(body, draws)
  {
    Candidate(draws[FirstFreeIndex(body, draws)])
  }

  /** The food the sampler returns is on the board and off the body. */
  lemma FirstFreeIsFreeCell(body: seq<Pos>, draws: seq<Draw>)
    requires HasFree(body, draws)
    ensures InGrid(FirstFree(body, draws)) && FirstFree(body, draws) !in body
  {
  }

  /** Rejection sampling: propose a cell from the next attempt, retry while
      it lies on the body. The retry loop consumes draws in order. */
  method GenerateFood(body: seq<Pos>, draws: seq<Draw>) returns (food: Pos)
    requires HasFree(body, draws)
    ensures InGrid(food) && food !in body
    ensures food == FirstFree(body, draws)
  {
    ghost var accepted := FirstFreeIndex(body, draws);
    var i := 0;
    food := Candidate(draws[i]);
    var onSnake := food in body;
    while onSnake
      invariant i <= accepted
      invariant food == Candidate(draws[i]) && onSnake == (food in body)
      decreases accepted - i
    {
      i := i + 1;
      food := Candidate(draws[i]);
      onSnake := food in body;
    }
  }

  // ---------------------------------------------------------------------
  // Speed schedule

  /** The tick interval after one piece of food is eaten. It never drops
      below the floor, shrinks strictly while above it, stays put at or below
      it, and never moves by more than 5. */
  function SpeedUp(delay: int): (r: int)
    ensures delay >= MIN_DELAY ==> r >= MIN_DELAY
    ensures delay > MIN_DELAY ==> r < delay
    ensures delay <= MIN_DELAY ==> r == delay
    ensures delay - 5 <= r <= delay
  {
    if delay > 150 then delay - 5
    else if delay > 100 then delay - 3
    else if delay > 50 then delay - 2
    else if delay > 25 then delay - 1
    else delay
  }

  /** The boundaries belong to the slower band: 150 and 100 are not
      "greater than" their own thresholds. */
  lemma SpeedUpBoundaries()
    ensures SpeedUp(151) == 146 && SpeedUp(150) == 147
    ensures SpeedUp(101) == 98 && SpeedUp(100) == 98
    ensures SpeedUp(51) == 49 && SpeedUp(50) == 49
    ensures SpeedUp(26) == 25 && SpeedUp(25) == 25
  {
  }

  /** The interval after n pieces of food. */
  function SpeedAfter(delay: int, n: nat): int {
    if n == 0 then delay else SpeedAfter(SpeedUp(delay), n - 1)
  }

  /** However much food is eaten, the interval stays at or above the floor
      and never grows. */
  lemma {:induction false} SpeedAfterBounds(delay: int, n: nat)
    requires delay >= MIN_DELAY
    ensures MIN_DELAY <= SpeedAfter(delay, n) <= delay
  {
    if n > 0 {
      SpeedAfterBounds(SpeedUp(delay), n - 1);
    }
  }

  /** Starting at or above the floor, the floor is reached after at most
      delay - MIN_DELAY pieces of food, and kept from then on. */
  lemma {:induction false} SpeedAfterReachesFloor(delay: int, n: nat)
    requires delay >= MIN_DELAY && n >= delay - MIN_DELAY
    ensures SpeedAfter(delay, n) == MIN_DELAY
  {
    if n > 0 {
      SpeedAfterReachesFloor(SpeedUp(delay), n - 1);
    }
  }

  // ---------------------------------------------------------------------
  // Collisions and the snake after one step

  /** Every segment is on the board and no two segments share a cell. */
  ghost predicate Settled(s: seq<Pos>) {
    |s| >= 1 &&
    (forall i :: 0 <= i < |s| ==> InGrid(s[i])) &&
    (forall i, j :: 0 <= i < j < |s| ==> s[i] != s[j])
  }

  /** The condition that ends a game: the head is off the board, or it
      shares its cell with another segment. A one-segment snake can only hit
      a wall. */
  predicate Collision(s: seq<Pos>)
    requires |s| >= 1
    ensures Collision(s) <==> !InGrid(s[0]) || s[0] in s[1..]
    ensures |s| == 1 ==> (Collision(s) <==> !InGrid(s[0]))
  {
    !InGrid(s[0]) || exists i :: 1 <= i < |s| && s[i] == s[0]
  }

  /** The snake after one tick's move: the new head is prepended; the tail
      stays when the head lands on the food and is dropped otherwise. So the
      snake grows by one exactly when it eats, keeps its length otherwise,
      has its head one step ahead and the rest of the body in place behind. */
  function Advanced(s: seq<Pos>, dir: Direction, food: Pos): (r: seq<Pos>)
    requires |s| >= 1
    ensures |r| == if Shift(s[0], dir) == food then |s| + 1 else |s|
    ensures r[0] == Shift(s[0], dir)
    ensures forall i :: 1 <= i < |r| ==> r[i] == s[i - 1]
  {
    var head := Shift(s[0], dir);
    if head == food then [head] + s else [head] + s[..|s| - 1]
  }

  /** Eating never ends the game: the food was on the board and off the body. */
  lemma EatingNeverCollides(s: seq<Pos>, dir: Direction, food: Pos)
    requires |s| >= 1 && InGrid(food) && food !in s
    requires Shift(s[0], dir) == food
    ensures !Collision(Advanced(s, dir, food))
  {
  }

  /** Moving into the cell the tail is leaving is not a collision, since the
      tail is dropped before the check. */
  lemma TailChaseIsSafe(s: seq<Pos>, dir: Direction, food: Pos)
    requires Settled(s) && |s| >= 2
    requires Shift(s[0], dir) == s[|s| - 1] && Shift(s[0], dir) != food
    ensures !Collision(Advanced(s, dir, food))
  {
  }

  /** A settled snake that moves without colliding is settled again. */
  lemma SettledAfterSafeMove(s: seq<Pos>, dir: Direction, food: Pos)
    requires Settled(s) && food !in s
    requires !Collision(Advanced(s, dir, food))
    ensures Settled(Advanced(s, dir, food))
  {
  }

  /** While the neck sits one step behind the head, a direction that is not
      the reverse of the last applied one never steps onto the neck. */
  lemma NoStepOntoNeck(s: seq<Pos>, last: Direction, dir: Direction)
    requires |s| >= 2 && s[0] == Shift(s[1], last)
    requires dir != Opposite(last)
    ensures Shift(s[0], dir) != s[1]
  {
  }

  // ---------------------------------------------------------------------
  // Input

  /** A keyboard event: its physical code and the key it produces. */
  datatype KeyEvent = KeyEvent(code: string, key: string)

  /** Space, by its code or by its key, starts a game that is not running;
      nothing restarts a running one. */
  predicate StartsGame(started: bool, ev: KeyEvent)
    ensures started ==> !StartsGame(started, ev)
    ensures !started ==> (StartsGame(started, ev) <==> ev.code == "Space" || ev.key == " ")
  {
    !started && (ev.code == "Space" || ev.key == " ")
  }

  /** The key name of the arrow for each direction. */
  function ArrowKey(d: Direction): string {
    match d
    case Right => "ArrowRight"
    case Down => "ArrowDown"
    case Left => "ArrowLeft"
    case Up => "ArrowUp"
  }

  /** The direction an arrow key asks for; other keys ask for none. */
  function Requested(key: string): (r: Option<Direction>)
    ensures r.Some? ==> ArrowKey(r.value) == key
    ensures r.None? ==> forall d: Direction :: ArrowKey(d) != key
  {
    if key == "ArrowRight" then Some(Right)
    else if key == "ArrowDown" then Some(Down)
    else if key == "ArrowLeft" then Some(Left)
    else if key == "ArrowUp" then Some(Up)
    else None
  }

  /** The direction after a key press that does not start the game: an arrow
      is taken unless it is the reverse of the last applied direction, in
      which case, as for any other key, the direction stays. A change is
      therefore never a reversal. */
  function Steered(dir: Direction, last: Direction, key: string): (r: Direction)
    ensures Requested(key).None? ==> r == dir
    ensures Requested(key) == Some(Opposite(last)) ==> r == dir
    ensures Requested(key).Some? && Requested(key).value != Opposite(last) ==>
      r == Requested(key).value
    ensures r == dir || r != Opposite(last)
  {
    match Requested(key)
    case Some(d) => if last != Opposite(d) then d else dir
    case None => dir
  }

  /** The direction after a run of key presses with no tick between them. */
  function SteeredAll(dir: Direction, last: Direction, keys: seq<string>): Direction
    decreases |keys|
  {
    if keys == [] then dir else SteeredAll(Steered(dir, last, keys[0]), last, keys[1..])
  }

  /** Until a tick applies a direction, no sequence of keys can turn a
      direction that does not reverse the last applied one into one that does. */
  lemma {:induction false} SteeredAllNeverReverses(dir: Direction, last: Direction, keys: seq<string>)
    requires dir != Opposite(last)
    ensures SteeredAll(dir, last, keys) != Opposite(last)
    decreases |keys|
  {
    if keys != [] {
      SteeredAllNeverReverses(Steered(dir, last, keys[0]), last, keys[1..]);
    }
  }
}
