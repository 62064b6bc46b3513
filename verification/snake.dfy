/**
 * The snake: its body segments (head first), the length the body grows
 * towards, its heading and the score, with the per-tick move and the reset.
 */
module Snakes {
  import opened Grid

  /**
   * `positions` lists the body head first; `length` is the number of
   * segments the body is allowed to reach; growth is deferred, so the body
   * catches up one segment per move.
   */
  datatype Snake = Snake(positions: seq<Pos>, length: int, direction: Direction, score: int)

  /**
   * What holds of every snake the game produces: a non-empty body no longer
   * than its length, every segment on a cell of the board, and a length
   * that is always one more than the score (each point is one extra segment).
   */
  predicate Valid(s: Snake) {
    && 1 <= |s.positions| <= s.length
    && s.length == s.score + 1
    && forall i :: 0 <= i < |s.positions| ==> OnGrid(s.positions[i])
  }

  /** The head segment: a segment of the body, on a board cell when the snake is valid. */
  function Head(s: Snake): (h: Pos)
    requires |s.positions| > 0
    ensures h in s.positions
    ensures Valid(s) ==> OnGrid(h)
  {
    s.positions[0]
  }

  /**
   * The segments the self-collision test compares the new head with: those
   * from index 3 on, empty for a body of at most three segments (a slice
   * past the end is empty, as in Python).
   */
  function CollisionZone(body: seq<Pos>): seq<Pos> {
    if |body| <= 3 then [] else body[3..]
  }

  /** The outcome of a move: whether it succeeded, and the snake afterwards. */
  datatype Moved = Moved(ok: bool, snake: Snake)

  /**
   * One move: the new head is one cell ahead (wrapping at the edges). If it
   * lands on a segment at index 3 or later the move fails and the snake is
   * left as it was; otherwise the head is inserted and, if the body is then
   * longer than `length`, its last segment is dropped.
   */
  function Update(s: Snake): (r: Moved)
    requires |s.positions| > 0
    ensures var h := NextPos(Head(s), s.direction);
      !r.ok <==> exists i :: 3 <= i < |s.positions| && s.positions[i] == h
    ensures |s.positions| <= 3 ==> r.ok
    ensures !r.ok ==> r.snake == s
    ensures r.ok ==>
      && r.snake.length == s.length
      && r.snake.direction == s.direction
      && r.snake.score == s.score
      && |r.snake.positions| > 0
      && Head(r.snake) == NextPos(Head(s), s.direction)
      && r.snake.positions[1..] <= s.positions
      && (|s.positions| < s.length ==> |r.snake.positions| == |s.positions| + 1)
      && (|s.positions| >= s.length ==> |r.snake.positions| == |s.positions|)
    ensures r.ok && |s.positions| <= s.length ==> |r.snake.positions| <= s.length
  {
    var h := NextPos(Head(s), s.direction);
    if h in CollisionZone(s.positions) then
      assert exists i :: 3 <= i < |s.positions| && s.positions[i] == h by {
        var j :| 0 <= j < |s.positions[3..]| && s.positions[3..][j] == h;
        assert s.positions[j + 3] == h;
      }
      Moved(false, s)
    else
      assert forall i :: 3 <= i < |s.positions| ==> s.positions[i] != h by {
        forall i | 3 <= i < |s.positions|
          ensures s.positions[i] != h
        {
          assert s.positions[i] == s.positions[3..][i - 3];
        }
      }
      var body := [h] + s.positions;
      var trimmed := if |body| > s.length then body[..|body| - 1] else body;
      assert trimmed[1..] == s.positions[..|trimmed| - 1];
      Moved(true, s.(positions := trimmed))
  }

  /** A successful move keeps the snake valid: the new head is a board cell and the rest is an old prefix. */
  lemma UpdatePreservesValid(s: Snake)
    requires Valid(s)
    requires Update(s).ok
    ensures Valid(Update(s).snake)
  {
  }

  /**
   * The state a snake starts in and returns to after a collision: one
   * segment at the centre, length 1, score 0, heading in the drawn direction.
   */
  function Reset(d: Direction): (r: Snake)
    ensures Valid(r)
    ensures r.positions == [Center] && r.length == 1 && r.score == 0 && r.direction == d
  {
    Snake([Center], 1, d, 0)
  }
}
