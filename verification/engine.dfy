/** The game engine: the session record, the collision test and the tick
    step of the snake game, with food generation passed in as an argument. */
module Engine {
  import opened Grid

  /** Points awarded for each piece of food eaten. */
  const FoodReward: int := 10

  /** The two-cell snake every session starts with, head first. */
  const InitialSnake: seq<Cell> := [Cell(8, 8), Cell(8, 9)]

  /** Where the food sits before the first random placement. */
  const InitialFood: Cell := Cell(5, 5)

  /** The whole state of one game: the body head first, the food, the
      committed heading, the current and best scores and the two flags. */
  datatype Session = Session(
    snake: seq<Cell>,
    food: Cell,
    direction: Direction,
    score: int,
    highScore: int,
    gameOver: bool,
    isPaused: bool)
  {
    /** A tick only does something in this state. */
    predicate Running() {
      !gameOver && !isPaused
    }
  }

  function Max(a: int, b: int): (m: int)
    ensures m >= a && m >= b
    ensures m == a || m == b
  {
    if a > b then a else b
  }

  /** The state when the component is first shown. */
  function Initial(): (s: Session)
    ensures s.snake == InitialSnake && s.food == InitialFood
    ensures s.direction == Up && s.Running()
    ensures s.score == 0 && s.highScore == 0
  {
    Session(InitialSnake, InitialFood, Up, 0, 0, false, false)
  }

  /** Whether a head moving onto `head` ends the game: the cell is off the
      board, or it is occupied by some segment of `snake` other than the
      current head. The tail counts as occupied although it is about to
      move on this very tick. */
  predicate Collision(snake: seq<Cell>, head: Cell) {
    !InGrid(head) || exists i :: 1 <= i < |snake| && snake[i] == head
  }

  /** The collision test as the game runs it: the four wall comparisons,
      then a scan over every segment after the first. */
  method CheckCollision(snake: seq<Cell>, head: Cell) returns (hit: bool)
    ensures hit <==> Collision(snake, head)
  {
    if head.x < 0 || head.x >= GridSize || head.y < 0 || head.y >= GridSize {
      return true;
    }
    var body := if |snake| <= 1 then [] else snake[1..];
    var i := 0;
    while i < |body|
      invariant 0 <= i <= |body|
      invariant forall j :: 0 <= j < i ==> body[j] != head
    {
      if body[i] == head {
        assert snake[i + 1] == head;
        return true;
      }
      i := i + 1;
    }
    assert forall k :: 1 <= k < |snake| ==> snake[k] == body[k - 1];
    return false;
  }

  /** Where the head goes on the next tick: one cell along the committed
      heading. */
  function NextHead(s: Session): (h: Cell)
    requires s.snake != []
    ensures Adjacent(s.snake[0], h) && h != s.snake[0]
  {
    Move(s.snake[0], s.direction)
  }

  /** True when the next tick moves the head onto the food. */
  predicate Eats(s: Session)
    requires s.snake != []
  {
    s.Running() && !Collision(s.snake, NextHead(s)) && NextHead(s) == s.food
  }

  /** One timer tick. A paused or finished game is left exactly as it is.
      Otherwise the head advances one cell; a collision ends the game and
      raises the best score to the current one if that is higher, leaving
      body, food and score alone. Without a collision the new head is put
      in front; on the food the body keeps its tail, the food moves to
      `newFood` and the score rises by the reward, elsewhere the tail is
      dropped. */
  function Step(s: Session, newFood: GridCell): (r: Session)
    requires s.Running() ==> s.snake != []
    ensures !s.Running() ==> r == s
    ensures r.direction == s.direction && r.isPaused == s.isPaused
    ensures |r.snake| >= |s.snake|
    ensures r.score == s.score || r.score == s.score + FoodReward
    ensures r.highScore >= s.highScore
    ensures r.highScore == s.highScore || r.highScore == s.score
  {
    if !s.Running() then s
    else
      var head := NextHead(s);
      if Collision(s.snake, head) then
        s.(gameOver := true, highScore := Max(s.highScore, s.score))
      else if head == s.food then
        s.(snake := [head] + s.snake, food := newFood, score := s.score + FoodReward)
      else
        s.(snake := [head] + s.snake[..|s.snake| - 1])
  }

  /** The restart button: a fresh game on the initial snake with food at
      `newFood`, keeping the best score of the run. */
  function Reset(s: Session, newFood: GridCell): (r: Session)
    ensures r.snake == InitialSnake && r.food == newFood
    ensures r.direction == Up && r.score == 0
    ensures !r.gameOver && !r.isPaused
    ensures r.highScore == s.highScore
  {
    Session(InitialSnake, newFood, Up, 0, s.highScore, false, false)
  }
}
