/**
 * Geometry and rule inputs of the move decision: moves, grid points, the board
 * with its four edge checks, and the snake with its neck and body checks.
 * Coordinates are unbounded integers, as in the source.
 */
module Models {
  import opened Wrappers

  /** One of the four moves; on the wire these are "up", "down", "left" and "right". */
  datatype Move = Up | Down | Left | Right

  /** The position of a move in the order the source declares and tests them. */
  function Rank(m: Move): nat {
    match m
    case Up => 0
    case Down => 1
    case Left => 2
    case Right => 3
  }

  /** An (x, y) pair; the source compares points as tuples of this shape. */
  type XY = (int, int)

  function Abs(n: int): nat {
    if n < 0 then -n else n
  }

  /** City-block distance between two points. */
  function Distance(p: XY, q: XY): nat {
    Abs(p.0 - q.0) + Abs(p.1 - q.1)
  }

  /** The failures the source raises instead of returning a move. */
  datatype Error =
    | NeckOutOfRange  // body[1] read from a body with fewer than two segments
    | EmptyChoice     // a random pick from an empty collection of moves

  /** A grid point; "up" increases y. */
  datatype Coord = Coord(x: int, y: int) {

    /** The point as a pair; the pair gives back the same point. */
    function GetXY(): (r: XY)
      ensures Coord(r.0, r.1) == this
    {
      (x, y)
    }

    /** The point one step away in direction m (the source's up/down/left/right fields). */
    function Neighbour(m: Move): (r: XY)
      ensures Distance(r, GetXY()) == 1
    {
      match m
      case Up => (x, y + 1)
      case Down => (x, y - 1)
      case Left => (x - 1, y)
      case Right => (x + 1, y)
    }
  }

  /** Different moves lead to different points, and no move stays in place. */
  lemma NeighboursDistinct(c: Coord, m1: Move, m2: Move)
    ensures c.Neighbour(m1) == c.Neighbour(m2) <==> m1 == m2
    ensures c.Neighbour(m1) != c.GetXY()
  {
  }

  /** The four neighbours are all the points at distance one. */
  lemma AdjacentIsNeighbour(c: Coord, p: XY)
    requires Distance(p, c.GetXY()) == 1
    ensures exists m :: c.Neighbour(m) == p
  {
    if p.0 == c.x {
      if p.1 == c.y + 1 {
        assert c.Neighbour(Up) == p;
      } else {
        assert c.Neighbour(Down) == p;
      }
    } else if p.0 == c.x - 1 {
      assert c.Neighbour(Left) == p;
    } else {
      assert c.Neighbour(Right) == p;
    }
  }

  /** Board dimensions and the edge values derived from them. */
  datatype Board = Board(height: int, width: int) {

    function TopEdge(): int { height - 1 }
    function BottomEdge(): int { 0 }
    function LeftEdge(): int { 0 }
    function RightEdge(): int { width - 1 }

    /** The cells of the board: columns 0 .. width-1, rows 0 .. height-1. */
    predicate Contains(p: XY) {
      0 <= p.0 < width && 0 <= p.1 < height
    }

    /** Up is lethal exactly on the top row. */
    function CheckTopEdge(head: Coord): (r: Option<Move>)
      ensures r == Some(Up) <==> head.y == height - 1
      ensures r == None || r == Some(Up)
      ensures Contains(head.GetXY()) ==> (r.Some? <==> !Contains(head.Neighbour(Up)))
    {
      if head.y == TopEdge() then Some(Up) else None
    }

    /** Down is lethal exactly on the bottom row. */
    function CheckBottomEdge(head: Coord): (r: Option<Move>)
      ensures r == Some(Down) <==> head.y == 0
      ensures r == None || r == Some(Down)
      ensures Contains(head.GetXY()) ==> (r.Some? <==> !Contains(head.Neighbour(Down)))
    {
      if head.y == BottomEdge() then Some(Down) else None
    }

    /** Left is lethal exactly in the leftmost column. */
    function CheckLeftEdge(head: Coord): (r: Option<Move>)
      ensures r == Some(Left) <==> head.x == 0
      ensures r == None || r == Some(Left)
      ensures Contains(head.GetXY()) ==> (r.Some? <==> !Contains(head.Neighbour(Left)))
    {
      if head.x == LeftEdge() then Some(Left) else None
    }

    /** Right is lethal exactly in the rightmost column. */
    function CheckRightEdge(head: Coord): (r: Option<Move>)
      ensures r == Some(Right) <==> head.x == width - 1
      ensures r == None || r == Some(Right)
      ensures Contains(head.GetXY()) ==> (r.Some? <==> !Contains(head.Neighbour(Right)))
    {
      if head.x == RightEdge() then Some(Right) else None
    }
  }

  /** The edge values are the extreme rows and columns of the board. */
  lemma EdgeThresholds(board: Board, p: XY)
    ensures board.Contains(p) <==>
      board.LeftEdge() <= p.0 <= board.RightEdge() && board.BottomEdge() <= p.1 <= board.TopEdge()
  {
  }

  /**
   * The acting snake. The head comes from its own field and is not checked
   * against body[0]; health is carried but not read by the decision.
   */
  datatype Snake = Snake(head: Coord, body: seq<Coord>, health: int) {

    /** The segment behind the head; reading it fails on a body shorter than two. */
    function GetNeck(): (r: Result<Coord, Error>)
      ensures r.Ok? <==> |body| >= 2
      ensures r.Ok? ==> r.value == body[1] && r.value in body
      ensures r.Err? ==> r.error == NeckOutOfRange
    {
      if |body| < 2 then Err(NeckOutOfRange) else Ok(body[1])
    }

    /** The move that would turn back onto the neck, if any move does. */
    function GetNeckDirection(): (r: Result<Option<Move>, Error>)
      ensures r.Err? <==> |body| < 2
      ensures r.Err? ==> r.error == NeckOutOfRange
      ensures forall m :: r == Ok(Some(m)) <==>
        |body| >= 2 && head.Neighbour(m) == body[1].GetXY()
      ensures r == Ok(None) <==>
        |body| >= 2 && forall m :: head.Neighbour(m) != body[1].GetXY()
    {
      match GetNeck()
      case Err(e) => Err(e)
      case Ok(neck) =>
        var p := neck.GetXY();
        if p == head.Neighbour(Up) then Ok(Some(Up))
        else if p == head.Neighbour(Down) then Ok(Some(Down))
        else if p == head.Neighbour(Left) then Ok(Some(Left))
        else if p == head.Neighbour(Right) then Ok(Some(Right))
        else Ok(None)
    }

    /** The body as pairs, segment by segment. */
    function GetBody(): (r: seq<XY>)
      ensures |r| == |body|
      ensures forall i :: 0 <= i < |body| ==> r[i] == body[i].GetXY()
      ensures forall c :: c in body <==> c.GetXY() in r
    {
      seq(|body|, i requires 0 <= i < |body| => body[i].GetXY())
    }

    /** Moving m puts the head onto a body segment. */
    predicate HitsBody(m: Move) {
      head.Neighbour(m) in GetBody()
    }

    /**
     * Every move that would put the head onto a body segment, each once,
     * in the order up, down, left, right.
     */
    method GetBodyDirections() returns (moves: seq<Move>)
      ensures forall m :: m in moves <==> HitsBody(m)
      ensures forall i, j :: 0 <= i < j < |moves| ==> Rank(moves[i]) < Rank(moves[j])
    {
      var occupied := GetBody();
      moves := [];
      if head.Neighbour(Up) in occupied {
        moves := moves + [Up];
      }
      if head.Neighbour(Down) in occupied {
        moves := moves + [Down];
      }
      if head.Neighbour(Left) in occupied {
        moves := moves + [Left];
      }
      if head.Neighbour(Right) in occupied {
        moves := moves + [Right];
      }
    }
  }

  /** At most one move leads onto the neck. */
  lemma NeckDirectionUnique(s: Snake, m1: Move, m2: Move)
    requires |s.body| >= 2
    requires s.head.Neighbour(m1) == s.body[1].GetXY()
    requires s.head.Neighbour(m2) == s.body[1].GetXY()
    ensures m1 == m2
  {
  }

  /** A neck on the head itself (the start of a game) gives no neck direction. */
  lemma NeckOnHeadGivesNone(s: Snake)
    requires |s.body| >= 2 && s.body[1] == s.head
    ensures s.GetNeckDirection() == Ok(None)
  {
  }

  /** A neck one step from the head gives the direction towards it. */
  lemma AdjacentNeckGivesDirection(s: Snake)
    requires |s.body| >= 2 && Distance(s.body[1].GetXY(), s.head.GetXY()) == 1
    ensures exists m :: s.GetNeckDirection() == Ok(Some(m))
  {
  }

  /** The neck is a body segment, so the neck direction is also a body direction. */
  lemma NeckDirectionHitsBody(s: Snake, m: Move)
    requires s.GetNeckDirection() == Ok(Some(m))
    ensures s.HitsBody(m)
  {
  }

  /** The neck cases of the source's unit tests. */
  lemma NeckDirectionExamples(health: int)
    ensures Snake(Coord(5, 5), [Coord(5, 5), Coord(5, 5), Coord(5, 5)], health).GetNeckDirection() == Ok(None)
    ensures Snake(Coord(5, 5), [Coord(5, 5), Coord(4, 5), Coord(3, 5)], health).GetNeckDirection() == Ok(Some(Left))
    ensures Snake(Coord(5, 5), [Coord(5, 5), Coord(6, 5), Coord(7, 5)], health).GetNeckDirection() == Ok(Some(Right))
    ensures Snake(Coord(5, 5), [Coord(5, 5), Coord(5, 6), Coord(5, 7)], health).GetNeckDirection() == Ok(Some(Up))
    ensures Snake(Coord(5, 5), [Coord(5, 5), Coord(5, 4), Coord(5, 3)], health).GetNeckDirection() == Ok(Some(Down))
  {
  }

  /** The edge cases of the source's unit tests, on an 11 by 11 board. */
  lemma EdgeCheckExamples()
    ensures Board(11, 11).CheckTopEdge(Coord(5, Board(11, 11).TopEdge())) == Some(Up)
    ensures Board(11, 11).CheckBottomEdge(Coord(5, Board(11, 11).BottomEdge())) == Some(Down)
    ensures Board(11, 11).CheckLeftEdge(Coord(Board(11, 11).LeftEdge(), 5)) == Some(Left)
    ensures Board(11, 11).CheckRightEdge(Coord(Board(11, 11).RightEdge(), 5)) == Some(Right)
  {
  }

  /** The self-collision cases of the source's unit tests: one body segment beside the head. */
  lemma BodyHitExamples(health: int, m: Move)
    ensures Snake(Coord(5, 5), [Coord(5, 5), Coord(5, 6)], health).HitsBody(m) <==> m == Up
    ensures Snake(Coord(5, 5), [Coord(5, 5), Coord(5, 4)], health).HitsBody(m) <==> m == Down
    ensures Snake(Coord(5, 5), [Coord(5, 5), Coord(4, 5)], health).HitsBody(m) <==> m == Left
    ensures Snake(Coord(5, 5), [Coord(5, 5), Coord(6, 5)], health).HitsBody(m) <==> m == Right
  {
    forall c: Coord ensures Snake(Coord(5, 5), [Coord(5, 5), c], health).GetBody() == [(5, 5), (c.x, c.y)] {
    }
  }

  /** A list in strict up/down/left/right order that holds only m is [m]. */
  lemma OrderedSingleMove(moves: seq<Move>, m: Move)
    requires forall i, j :: 0 <= i < j < |moves| ==> Rank(moves[i]) < Rank(moves[j])
    requires forall x :: x in moves <==> x == m
    ensures moves == [m]
  {
    assert m in moves;
    forall i | 0 <= i < |moves| ensures moves[i] == m {
      assert moves[i] in moves;
    }
    // The first and the last element are both m, so strict order leaves no room for a second.
    assert moves[0] == m && moves[|moves| - 1] == m;
  }

  /** The self-collision test with the segment above the head, run through the body check: the list is [up]. */
  method BodyDirectionsUpExample(health: int) returns (moves: seq<Move>)
    ensures moves == [Up]
  {
    var snake := Snake(Coord(5, 5), [Coord(5, 5), Coord(5, 6)], health);
    moves := snake.GetBodyDirections();
    forall m: Move ensures m in moves <==> m == Up {
      BodyHitExamples(health, m);
    }
    OrderedSingleMove(moves, Up);
  }
}
