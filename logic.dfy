/**
 * The move selector: gather every lethal move from the edge, neck and body
 * checks, take the moves that remain, and pick one of them.
 */
module Logic {
  import opened Wrappers
  import opened Models

  /** All four moves. A value: no call can change it. */
  const POSSIBLE_MOVES: set<Move> := {Up, Down, Left, Right}

  /**
   * The results of all checks in one set, as the source builds it: a check
   * that does not fire contributes None, which names no move.
   */
  function DeadlyMoves(board: Board, snake: Snake): (r: set<Option<Move>>)
    requires |snake.body| >= 2
    ensures forall m :: Some(m) in r <==>
      || board.CheckTopEdge(snake.head) == Some(m)
      || board.CheckBottomEdge(snake.head) == Some(m)
      || board.CheckLeftEdge(snake.head) == Some(m)
      || board.CheckRightEdge(snake.head) == Some(m)
      || snake.GetNeckDirection() == Ok(Some(m))
      || snake.HitsBody(m)
  {
    {
      board.CheckTopEdge(snake.head),
      board.CheckBottomEdge(snake.head),
      board.CheckLeftEdge(snake.head),
      board.CheckRightEdge(snake.head),
      snake.GetNeckDirection().value
    }
    + set m | m in POSSIBLE_MOVES && snake.HitsBody(m) :: Some(m)
  }

  /** The four moves minus the deadly ones; a None among the deadly ones removes nothing. */
  function AvailableMoves(board: Board, snake: Snake): (r: set<Move>)
    requires |snake.body| >= 2
    ensures forall m :: m in r <==> Some(m) !in DeadlyMoves(board, snake)
    ensures r <= POSSIBLE_MOVES
  {
    set m | m in POSSIBLE_MOVES && Some(m) !in DeadlyMoves(board, snake)
  }

  /**
   * A move is available iff no check names it: its edge check does not fire,
   * it is not the neck direction and it does not hit the body.
   */
  lemma AvailableIffNoCheckFires(board: Board, snake: Snake, m: Move)
    requires |snake.body| >= 2
    ensures m in AvailableMoves(board, snake) <==>
      && (m == Up ==> snake.head.y != board.height - 1)
      && (m == Down ==> snake.head.y != 0)
      && (m == Left ==> snake.head.x != 0)
      && (m == Right ==> snake.head.x != board.width - 1)
      && snake.GetNeckDirection() != Ok(Some(m))
      && !snake.HitsBody(m)
  {
  }

  /** A move that hits the body is never available. */
  lemma AvailableMissesBody(board: Board, snake: Snake, m: Move)
    requires |snake.body| >= 2
    requires m in AvailableMoves(board, snake)
    ensures forall i :: 0 <= i < |snake.body| ==> snake.body[i].GetXY() != snake.head.Neighbour(m)
  {
  }

  /**
   * With the head on the board, a move is available iff it lands on the board
   * and on no body segment: the checks rule out exactly the lethal moves.
   */
  lemma AvailableIffSafe(board: Board, snake: Snake, m: Move)
    requires |snake.body| >= 2
    requires board.Contains(snake.head.GetXY())
    ensures m in AvailableMoves(board, snake) <==>
      && board.Contains(snake.head.Neighbour(m))
      && forall i :: 0 <= i < |snake.body| ==> snake.body[i].GetXY() != snake.head.Neighbour(m)
  {
  }

  /** The list the body check returns gives the same deadly set as the body predicate. */
  lemma DeadlyFromBodyList(board: Board, snake: Snake, bodyDirections: seq<Move>)
    requires |snake.body| >= 2
    requires forall m :: m in bodyDirections <==> snake.HitsBody(m)
    ensures DeadlyMoves(board, snake) == {
        board.CheckTopEdge(snake.head),
        board.CheckBottomEdge(snake.head),
        board.CheckLeftEdge(snake.head),
        board.CheckRightEdge(snake.head),
        snake.GetNeckDirection().value
      }
      + set m | m in bodyDirections :: Some(m)
  {
  }

  /**
   * One turn's decision: some move that no check rules out. Reading the neck
   * of a body shorter than two fails, and so does picking from no moves.
   */
  method ChooseMove(board: Board, snake: Snake) returns (r: Result<Move, Error>)
    ensures |snake.body| < 2 ==> r == Err(NeckOutOfRange)
    ensures |snake.body| >= 2 ==> (r.Ok? <==> AvailableMoves(board, snake) != {})
    ensures |snake.body| >= 2 && r.Err? ==> r == Err(EmptyChoice)
    ensures r.Ok? ==> |snake.body| >= 2 && r.value in AvailableMoves(board, snake)
    ensures r.Ok? && snake.head.y == board.height - 1 ==> r.value != Up
    ensures r.Ok? && snake.head.y == 0 ==> r.value != Down
    ensures r.Ok? && snake.head.x == 0 ==> r.value != Left
    ensures r.Ok? && snake.head.x == board.width - 1 ==> r.value != Right
    ensures r.Ok? && board.Contains(snake.head.GetXY()) ==> board.Contains(snake.head.Neighbour(r.value))
    ensures r.Ok? ==> forall i :: 0 <= i < |snake.body| ==> snake.body[i].GetXY() != snake.head.Neighbour(r.value)
  {
    var neckDirection := snake.GetNeckDirection();
    if neckDirection.Err? {
      return Err(neckDirection.error);
    }
    var bodyDirections := snake.GetBodyDirections();
    var deadlyMoves := {
      board.CheckTopEdge(snake.head),
      board.CheckBottomEdge(snake.head),
      board.CheckLeftEdge(snake.head),
      board.CheckRightEdge(snake.head),
      neckDirection.value
    }
    + set m | m in bodyDirections :: Some(m);
    DeadlyFromBodyList(board, snake, bodyDirections);
    var availableMoves := set m | m in POSSIBLE_MOVES && Some(m) !in deadlyMoves;
    assert availableMoves == AvailableMoves(board, snake);
    if availableMoves == {} {
      return Err(EmptyChoice);
    }
    var move :| move in availableMoves;
    AvailableIffNoCheckFires(board, snake, move);
    AvailableMissesBody(board, snake, move);
    if board.Contains(snake.head.GetXY()) {
      AvailableIffSafe(board, snake, move);
    }
    return Ok(move);
  }

  /** The game-turn example of the unit tests: cornered at (0, 0), only up is left. */
  lemma CornerScenario(health: int)
    ensures AvailableMoves(Board(11, 11), Snake(Coord(0, 0), [Coord(0, 0), Coord(1, 0), Coord(2, 0)], health)) == {Up}
  {
  }

  /** The unit tests' game turn, run through the selector: the only move it can return is up. */
  method ChooseMoveCornerExample(health: int) returns (r: Result<Move, Error>)
    ensures r == Ok(Up)
  {
    CornerScenario(health);
    r := ChooseMove(Board(11, 11), Snake(Coord(0, 0), [Coord(0, 0), Coord(1, 0), Coord(2, 0)], health));
  }

  /** At the start of a game, all segments on one mid-board cell, every move is available. */
  lemma StartOfGameScenario(health: int)
    ensures AvailableMoves(Board(11, 11), Snake(Coord(5, 5), [Coord(5, 5), Coord(5, 5), Coord(5, 5)], health)) == POSSIBLE_MOVES
  {
  }
}
