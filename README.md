# Battlesnake turn decision, modelled in Dafny

This project models the turn-decision core of a Battlesnake agent. The agent is
given the board and its own snake. It works out which of the four moves (`up`,
`down`, `left`, `right`) would kill the snake this turn:

- stepping off an edge of the board;
- turning back onto the neck;
- running into any body segment.

It then picks one of the remaining moves.

- `wrappers.dfy`: `Option` stands for a check that may return nothing (Python's
  `None`). `Result` stands for an operation that may raise.
- `models.dfy` (module `Models`) models `server_models.py`. `Move` is the enumerated
  move. `Coord` is a grid point whose neighbour in direction `m` is `Neighbour(m)`,
  with "up" meaning y+1. `Board` has its derived edge values and its four edge
  checks. `Snake` has its neck, its neck direction, its body as pairs, and the list
  of moves that hit the body. All three entities are values: the source sets their
  fields once, in the constructor. The body-direction check appends to a local list
  step by step, so it is a method. Its contract says which moves the list holds, and
  that they are in the fixed order up, down, left, right with none repeated.
- `logic.dfy` (module `Logic`) models `server_logic.py`. `POSSIBLE_MOVES` is a
  constant, and no call can change it. `DeadlyMoves` is the set of every check's
  result. As in the source, that set can hold "nothing" (`None`), and "nothing"
  rules out no move. `AvailableMoves` is the four moves minus the deadly ones.
  `ChooseMove` picks any available move by a nondeterministic choice (`:|`).

Two failures of the source appear as `Err` results, not as preconditions:

- `NeckOutOfRange`: the neck `body[1]` is read from a body with fewer than two
  segments. Python raises `IndexError` here.
- `EmptyChoice`: every move is lethal, and `random.choice` is asked to pick from an
  empty list. Python raises `IndexError` here too.

The head is a field of its own. The model never assumes that it equals `body[0]`.
Where a property needs the head to be on the board, the lemma says so in a
precondition.

The decision is exactly the one the code makes, and nothing more:

- No food rule exists. Food seeking appears only as TODO comments (`server_logic.py:47-53`).
- No fallback exists. When every move is lethal, `random.choice` raises on the empty list (`server_logic.py:51`).
- `get_neck` raises `IndexError` on a body shorter than two (`server_models.py:92`). Because `choose_move` always asks for the neck direction, the whole decision fails then.

## Model

| member | source | states |
|---|---|---|
| `Models.Coord.GetXY` | server_models.py:19-26 | The pair rebuilds the same point: GetXY is injective. |
| `Models.Coord.Neighbour` | server_models.py:14-17 | Each neighbour is at city-block distance exactly 1 from the point. |
| `Models.NeighboursDistinct` | server_models.py:14-17 | The four neighbours are pairwise distinct (equal only for the same move), and none is the point itself. |
| `Models.AdjacentIsNeighbour` | server_models.py:14-17 | Every point at distance 1 is the neighbour in some direction, so the four offsets cover all adjacent cells. |
| `Models.EdgeThresholds` | server_models.py:33-36 | A point is on the board iff left edge <= x <= right edge and bottom edge <= y <= top edge, with top = height-1, bottom = 0, left = 0, right = width-1. |
| `Models.Board.CheckTopEdge` | server_models.py:38-46 | Returns `up` iff head.y == height-1, and otherwise nothing. For a head on the board, it fires iff stepping up leaves the board. |
| `Models.Board.CheckBottomEdge` | server_models.py:48-56 | Returns `down` iff head.y == 0, and otherwise nothing. For a head on the board, it fires iff stepping down leaves the board. |
| `Models.Board.CheckLeftEdge` | server_models.py:58-66 | Returns `left` iff head.x == 0, and otherwise nothing. For a head on the board, it fires iff stepping left leaves the board. |
| `Models.Board.CheckRightEdge` | server_models.py:68-76 | Returns `right` iff head.x == width-1, and otherwise nothing. For a head on the board, it fires iff stepping right leaves the board. |
| `Models.Snake.GetNeck` | server_models.py:85-92 | Succeeds iff the body has at least two segments. The neck is then `body[1]`, a body segment. Otherwise it fails with the index error. |
| `Models.Snake.GetNeckDirection` | server_models.py:94-110 | Fails iff the body is shorter than two. Otherwise it returns `m` iff the head's neighbour in `m` is `body[1]`, and returns nothing iff no neighbour is. |
| `Models.Snake.GetBody` | server_models.py:112-119 | Same length and order as the body, segment i mapped to its pair. A segment is in the body iff its pair is in the result. |
| `Models.Snake.GetBodyDirections` | server_models.py:121-140 | The list holds exactly the moves whose head-neighbour is a body segment. It is strictly ordered up, down, left, right, so it has no duplicates. |
| `Models.NeckDirectionUnique` | server_models.py:101-110 | At most one move leads from the head onto the neck. |
| `Models.NeckOnHeadGivesNone` | server_models.py:101-110 | A neck on the head's own cell, as at the start of a game, gives no neck direction. |
| `Models.AdjacentNeckGivesDirection` | server_models.py:101-110 | A neck one step from the head always gives a neck direction. |
| `Models.NeckDirectionHitsBody` | server_models.py:101-110 | Whenever a neck direction is returned, that move also hits the body, because the neck is a segment. |
| `Models.NeckDirectionExamples` | tests.py:20-73 | Segments all at (5,5) give nothing. A neck at (4,5), (6,5), (5,6) or (5,4) gives left, right, up or down. |
| `Models.EdgeCheckExamples` | tests.py:76-118 | On an 11 by 11 board, a head on each edge value makes that edge's check fire with its move. |
| `Models.BodyHitExamples` | tests.py:121-175 | With one segment next to the head at (5,5), exactly the move towards it hits the body. |
| `Models.OrderedSingleMove` | server_models.py:130-140 | A list in strict up/down/left/right order that holds only one move is that move alone. |
| `Models.BodyDirectionsUpExample` | tests.py:121-133 | The body check itself returns the list `[up]` for head (5,5) with a segment at (5,6). |
| `Logic.DeadlyMoves` | server_logic.py:31-43 | A move is in the deadly set iff its edge check fires, it is the neck direction, or it hits the body. |
| `Logic.AvailableMoves` | server_logic.py:12-45 | A move is available iff the deadly set does not name it, so a check that returned nothing removes no move. The result is a subset of the four possible moves. |
| `Logic.AvailableIffNoCheckFires` | server_logic.py:31-45 | A move is available iff its edge check does not fire, it is not the neck direction and it does not hit the body. Checks that return nothing remove no move. |
| `Logic.AvailableMissesBody` | server_logic.py:39-45 | No available move leads onto any body segment. |
| `Logic.AvailableIffSafe` | server_logic.py:31-45 | With the head on the board, a move is available iff its target cell is on the board and is no body segment. This holds in both directions: nothing lethal is left, and nothing safe is removed. |
| `Logic.DeadlyFromBodyList` | server_logic.py:31-43 | Unpacking the body-direction list into the deadly set gives the same set as the body-hit predicate. |
| `Logic.ChooseMove` | server_logic.py:14-57 | Fails with the index error on a body shorter than two, and fails with the empty-choice error iff no move is available. Otherwise it returns an available move. That move never leaves the board from an edge row or column, lands on the board when the head is on it, and never lands on a body segment. |
| `Logic.CornerScenario` | tests.py:178-253 | On an 11 by 11 board, with head (0,0) and body (0,0), (1,0), (2,0), the only available move is `up`. |
| `Logic.ChooseMoveCornerExample` | tests.py:178-253 | On the unit tests' game turn, the selector itself returns `up`. |
| `Logic.StartOfGameScenario` | server_logic.py:31-45 | On an 11 by 11 board, with every segment at (5,5), all four moves are available. |

## Left out

- Building `Coord`, `Board` and `Snake` from the JSON request dictionary is left out. The model builds them directly from integers and sequences.
- The log line that prints the game id, the turn and the chosen move is left out, because it is output only.
- The distribution of `random.choice` is left out. The model picks some available move by nondeterministic choice. Which move is uniformly likely is not modelled.
- Food, hazards and other snakes in the request are left out, because the code never reads them. Food seeking exists only as TODO comments.
- The snake's `health` is carried as a field. The decision never reads it.
- `tests.py` is used only as a source of concrete examples. It imports an older free-function API that the modelled files do not define.
