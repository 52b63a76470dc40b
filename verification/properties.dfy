/** Properties of the snake game: the laws of a single tick, the invariant
    every reachable session keeps, and what a sequence of ticks and player
    actions can and cannot do. */
module Properties {
  import opened Grid
  import opened Engine
  import opened Input

  // ---------------------------------------------------------------------
  // One tick

  /** A colliding tick ends the game and touches nothing but the best
      score, which becomes the larger of the best and current scores. */
  lemma StepCollision(s: Session, newFood: GridCell)
    requires s.Running() && s.snake != []
    requires Collision(s.snake, NextHead(s))
    ensures var r := Step(s, newFood);
      && r.gameOver
      && r.snake == s.snake && r.food == s.food && r.score == s.score
      && r.direction == s.direction && r.isPaused == s.isPaused
      && r.highScore == Max(s.highScore, s.score)
  {
  }

  /** A tick without collision moves the head one cell along the committed
      heading and every other segment into the place of the one ahead of
      it; the body grows by one exactly when the food is eaten. */
  lemma StepGrowth(s: Session, newFood: GridCell)
    requires s.Running() && s.snake != []
    requires !Collision(s.snake, NextHead(s))
    ensures var r := Step(s, newFood);
      && !r.gameOver && r.highScore == s.highScore
      && r.snake != [] && r.snake[0] == Move(s.snake[0], s.direction)
      && (forall i :: 1 <= i < |r.snake| ==> r.snake[i] == s.snake[i - 1])
      && |r.snake| == |s.snake| + (if Eats(s) then 1 else 0)
  {
  }

  /** The score rises by exactly the reward when, and only when, the new
      head lands on the food; the food is replaced on that tick and on no
      other. */
  lemma StepScore(s: Session, newFood: GridCell)
    requires s.Running() ==> s.snake != []
    ensures var r := Step(s, newFood);
      && (r.score == s.score + FoodReward <==> s.Running() && Eats(s))
      && (r.score == s.score <==> !(s.Running() && Eats(s)))
      && (s.Running() && Eats(s) ==> r.food == newFood)
      && (!(s.Running() && Eats(s)) ==> r.food == s.food)
  {
  }

  /** The best score changes only on the tick that ends the game, and then
      only upwards to the current score. */
  lemma StepHighScore(s: Session, newFood: GridCell)
    requires s.Running() ==> s.snake != []
    ensures var r := Step(s, newFood);
      r.highScore != s.highScore ==>
        && s.Running() && Collision(s.snake, NextHead(s))
        && r.gameOver && !s.gameOver
        && r.highScore == s.score > s.highScore
  {
  }

  // ---------------------------------------------------------------------
  // The invariant of reachable sessions

  predicate AllInGrid(snake: seq<Cell>) {
    forall i :: 0 <= i < |snake| ==> InGrid(snake[i])
  }

  /** No cell is occupied by two segments. */
  predicate Distinct(snake: seq<Cell>) {
    forall i, j :: 0 <= i < j < |snake| ==> snake[i] != snake[j]
  }

  /** Each segment touches the next one. */
  predicate Connected(snake: seq<Cell>) {
    forall i :: 0 <= i < |snake| - 1 ==> Adjacent(snake[i], snake[i + 1])
  }

  /** What holds of every session the game can reach: a non-empty,
      connected, self-avoiding snake on the board, food on the board, and
      scores that are non-negative multiples of the reward. */
  predicate Inv(s: Session) {
    && s.snake != []
    && AllInGrid(s.snake)
    && Distinct(s.snake)
    && Connected(s.snake)
    && InGrid(s.food)
    && s.score >= 0 && s.score % FoodReward == 0
    && s.highScore >= 0 && s.highScore % FoodReward == 0
  }

  lemma InitialInv()
    ensures Inv(Initial())
  {
  }

  /** Prepending a head that is new, on the board and next to the old head
      to a prefix of a well-formed snake gives a well-formed snake. */
  lemma PrependKeeps(snake: seq<Cell>, head: Cell, keep: nat)
    requires snake != [] && 1 <= keep <= |snake|
    requires AllInGrid(snake) && Distinct(snake) && Connected(snake)
    requires InGrid(head) && Adjacent(head, snake[0])
    requires forall i :: 0 <= i < |snake| ==> snake[i] != head
    ensures var t := [head] + snake[..keep];
      AllInGrid(t) && Distinct(t) && Connected(t)
  {
    var t := [head] + snake[..keep];
    assert forall i :: 1 <= i < |t| ==> t[i] == snake[i - 1];
  }

  lemma StepInv(s: Session, newFood: GridCell)
    requires Inv(s)
    ensures Inv(Step(s, newFood))
  {
    if s.Running() {
      var head := NextHead(s);
      if !Collision(s.snake, head) {
        assert forall i :: 0 <= i < |s.snake| ==> s.snake[i] != head;
        if head == s.food {
          assert s.snake[..|s.snake|] == s.snake;
          PrependKeeps(s.snake, head, |s.snake|);
        } else if |s.snake| > 1 {
          PrependKeeps(s.snake, head, |s.snake| - 1);
        } else {
          assert [head] + s.snake[..0] == [head];
        }
      }
    }
  }

  lemma OnKeyInv(s: Session, k: Key)
    requires Inv(s)
    ensures Inv(OnKey(s, k))
  {
  }

  lemma ResetInv(s: Session, newFood: GridCell)
    requires Inv(s)
    ensures Inv(Reset(s, newFood))
  {
  }

  /** Reset forgets everything about the old session except its best score:
      it is the initial session with the new food and the old best score. */
  lemma ResetIsInitial(s: Session, newFood: GridCell)
    ensures Reset(s, newFood) == Initial().(food := newFood, highScore := s.highScore)
    ensures Reset(Reset(s, newFood), newFood) == Reset(s, newFood)
  {
  }

  // ---------------------------------------------------------------------
  // Sequences of events

  /** Everything that can happen to a session: a timer tick (with the cell
      the random generator would pick), a key press, a click on the pause
      button, or a click on a restart button (again with a random cell). */
  datatype Event =
    | Tick(tickFood: GridCell)
    | Press(key: Key)
    | PauseClick
    | ResetClick(resetFood: GridCell)

  function Apply(s: Session, e: Event): (r: Session)
    requires s.snake != []
    ensures r.snake != []
    ensures r.highScore >= s.highScore
  {
    match e
    case Tick(f) => Step(s, f)
    case Press(k) => OnKey(s, k)
    case PauseClick => TogglePause(s)
    case ResetClick(f) => Reset(s, f)
  }

  /** The session after the events `evs`, in order. The best score of the
      run never goes down, whatever happens. */
  function Run(s: Session, evs: seq<Event>): (r: Session)
    requires s.snake != []
    ensures r.snake != []
    ensures r.highScore >= s.highScore
    decreases |evs|
  {
    if evs == [] then s else Run(Apply(s, evs[0]), evs[1..])
  }

  /** The session after a run of timer ticks with no player input. Within
      it the score never goes down and only ever moves by whole rewards. */
  function Ticks(s: Session, foods: seq<GridCell>): (r: Session)
    requires s.snake != []
    ensures r.snake != []
    ensures r.score >= s.score && (r.score - s.score) % FoodReward == 0
    ensures r.direction == s.direction && r.isPaused == s.isPaused
    decreases |foods|
  {
    if foods == [] then s else Ticks(Step(s, foods[0]), foods[1..])
  }

  lemma {:induction false} RunInv(s: Session, evs: seq<Event>)
    requires Inv(s)
    ensures Inv(Run(s, evs))
    decreases |evs|
  {
    if evs != [] {
      var t := Apply(s, evs[0]);
      match evs[0] {
        case Tick(f) => StepInv(s, f);
        case Press(k) => OnKeyInv(s, k);
        case PauseClick =>
        case ResetClick(f) => ResetInv(s, f);
      }
      RunInv(t, evs[1..]);
    }
  }

  /** Every reachable session keeps the invariant; in particular every
      segment of every reachable snake lies on the board. */
  lemma ReachableInv(evs: seq<Event>)
    ensures Inv(Run(Initial(), evs))
    ensures AllInGrid(Run(Initial(), evs).snake)
  {
    InitialInv();
    RunInv(Initial(), evs);
  }

  /** A finished or paused game does not move, however many ticks pass. */
  lemma {:induction false} FrozenTicks(s: Session, foods: seq<GridCell>)
    requires !s.Running() && s.snake != []
    ensures Ticks(s, foods) == s
    decreases |foods|
  {
    if foods != [] {
      FrozenTicks(Step(s, foods[0]), foods[1..]);
    }
  }

  /** Ticks are events: a run of ticks is the run of the matching events. */
  lemma {:induction false} TicksAreRun(s: Session, foods: seq<GridCell>)
    requires s.snake != []
    ensures Ticks(s, foods) == Run(s, seq(|foods|, i requires 0 <= i < |foods| => Tick(foods[i])))
    decreases |foods|
  {
    var evs := seq(|foods|, i requires 0 <= i < |foods| => Tick(foods[i]));
    if foods != [] {
      var rest := seq(|foods[1..]|, i requires 0 <= i < |foods[1..]| => Tick(foods[1..][i]));
      assert evs[1..] == rest;
      TicksAreRun(Step(s, foods[0]), foods[1..]);
    }
  }

  // ---------------------------------------------------------------------
  // Concrete games

  /** One tick up from the start, food elsewhere: the snake shifts one cell
      up and nothing else changes. */
  lemma FirstTickUp(newFood: GridCell)
    ensures Step(Initial(), newFood)
      == Initial().(snake := [Cell(8, 7), Cell(8, 8)])
  {
  }

  /** Heading up with the food right above the head: the snake grows onto
      the food, the score rises by 10 and the food is replaced. */
  lemma EatingTick(score: int, newFood: GridCell)
    ensures var s := Session([Cell(5, 6), Cell(5, 7)], Cell(5, 5), Up, score, 0, false, false);
      Step(s, newFood)
        == s.(snake := [Cell(5, 5), Cell(5, 6), Cell(5, 7)], food := newFood, score := score + 10)
  {
  }

  /** Heading left from the corner: the wall ends the game and the best
      score takes the current one. */
  lemma WallTick(newFood: GridCell)
    ensures var s := Session([Cell(0, 0), Cell(1, 0)], Cell(5, 5), Left, 30, 0, false, false);
      Step(s, newFood) == s.(gameOver := true, highScore := 30)
  {
    var s := Session([Cell(0, 0), Cell(1, 0)], Cell(5, 5), Left, 30, 0, false, false);
    assert NextHead(s) == Cell(-1, 0);
    assert !InGrid(NextHead(s));
    StepCollision(s, newFood);
  }

  /** Restarting after a game that ended with best score 50. */
  lemma RestartKeepsBest(s: Session, newFood: GridCell)
    requires s.gameOver && s.highScore == 50
    ensures var r := Reset(s, newFood);
      r.score == 0 && !r.gameOver && r.snake == InitialSnake && r.highScore == 50
  {
  }

  /** The reversal guard looks at the committed heading, not the one the
      last tick used: two quick turns before a tick (left, then down while
      heading up) send the head back into the neck and end the game. */
  lemma QuickTurnEndsGame(newFood: GridCell)
    ensures var r := Run(Initial(), [Press(ArrowLeft), Press(ArrowDown), Tick(newFood)]);
      r.gameOver && r.direction == Opposite(Initial().direction)
  {
    var evs := [Press(ArrowLeft), Press(ArrowDown), Tick(newFood)];
    var left := Initial().(direction := Left);
    var down := Initial().(direction := Down);
    assert Run(Initial(), evs) == Run(left, evs[1..]);
    assert Run(left, evs[1..]) == Run(down, evs[2..]);
    assert NextHead(down) == Cell(8, 9) == down.snake[1];
    assert Run(down, evs[2..]) == Run(Step(down, newFood), []);
  }
}
