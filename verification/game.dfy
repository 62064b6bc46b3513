/**
 * One frame of the game loop without its drawing: the key events of the
 * frame steer the snake, the snake moves (a self-collision resets the snake
 * and moves the food), and a snake whose head reaches the food eats it.
 * Every random draw of the frame is an input.
 */
module Game {
  import opened Grid
  import opened Snakes
  import opened Foods

  /** The key of a key-press event: an arrow key, or any other key. */
  datatype Key = Arrow(toward: Direction) | OtherKey

  /** An input event of the frame: a key press, or an event the game ignores. */
  datatype Event = KeyPress(key: Key) | OtherEvent

  /** The random values one frame may consume; each is used only when the code draws it. */
  datatype Draws = Draws(respawnDirection: Direction, respawnCell: Cell, foodCell: Cell)

  predicate ValidDraws(dr: Draws) {
    ValidCell(dr.respawnCell) && ValidCell(dr.foodCell)
  }

  /** Everything the simulation keeps between frames. */
  datatype State = State(snake: Snake, food: Food)

  /** The game invariant: a valid snake and food on a board cell. */
  predicate ValidState(g: State) {
    Valid(g.snake) && OnGrid(g.food.position)
  }

  /**
   * One event applied to the heading: an arrow key turns the snake unless it
   * points exactly against the current heading; every other event leaves it.
   */
  function Turn(d: Direction, e: Event): (r: Direction)
    ensures r != Opposite(d)
    ensures r == (if e.KeyPress? && e.key.Arrow? && e.key.toward != Opposite(d) then e.key.toward else d)
  {
    match e
    case OtherEvent => d
    case KeyPress(k) =>
      if k == Arrow(Up) && d != Down then Up
      else if k == Arrow(Down) && d != Up then Down
      else if k == Arrow(Left) && d != Right then Left
      else if k == Arrow(Right) && d != Left then Right
      else d
  }

  /**
   * The heading after all events of a frame, each guarded against the
   * heading it meets. The frame ends heading the way it started or the way
   * one of its arrow keys pointed, and it takes at least two events to end
   * opposite to where it started.
   */
  function Steer(d: Direction, events: seq<Event>): (r: Direction)
    ensures r == d || exists i :: 0 <= i < |events| && events[i] == KeyPress(Arrow(r))
    ensures |events| <= 1 ==> r != Opposite(d)
    decreases |events|
  {
    if |events| == 0 then d
    else
      var r := Steer(Turn(d, events[0]), events[1..]);
      assert r != Turn(d, events[0]) ==> exists i :: 0 <= i < |events| && events[i] == KeyPress(Arrow(r)) by {
        if r != Turn(d, events[0]) {
          var i :| 0 <= i < |events[1..]| && events[1..][i] == KeyPress(Arrow(r));
          assert events[i + 1] == KeyPress(Arrow(r));
        }
      }
      r
  }

  /**
   * The headings a frame passes through: the starting one, then one after
   * each event. Consecutive headings are never opposite, and the last is the
   * one the frame ends with.
   */
  function Headings(d: Direction, events: seq<Event>): (r: seq<Direction>)
    decreases |events|
    ensures |r| == |events| + 1
    ensures r[0] == d
    ensures forall i :: 0 <= i < |events| ==> r[i + 1] == Turn(r[i], events[i])
    ensures forall i :: 0 <= i < |events| ==> r[i + 1] != Opposite(r[i])
    ensures r[|events|] == Steer(d, events)
  {
    if |events| == 0 then [d]
    else
      var rest := Headings(Turn(d, events[0]), events[1..]);
      assert forall i :: 1 <= i < |events| ==> events[i] == events[1..][i - 1];
      [d] + rest
  }

  /**
   * The guard looks at one event at a time, so two arrow keys in one frame
   * can turn the snake fully around: a perpendicular turn followed by the
   * reverse of the heading the frame started with.
   */
  lemma {:induction false} TwoKeysReverse(d: Direction, side: Direction)
    requires side != d && side != Opposite(d)
    ensures Steer(d, [KeyPress(Arrow(side)), KeyPress(Arrow(Opposite(d)))]) == Opposite(d)
  {
  }

  /**
   * The consequence of an in-frame reversal: a snake that has just moved
   * straight, given a perpendicular key and then the reverse key, moves its
   * head back onto its own neck (index 1). The collision test never looks
   * at index 1, so the move succeeds and the snake passes through itself.
   */
  lemma ReversalRunsOverNeck(g: State, side: Direction)
    requires |g.snake.positions| >= 2
    requires OnGrid(g.snake.positions[1])
    requires Head(g.snake) == NextPos(g.snake.positions[1], g.snake.direction)
    requires side != g.snake.direction && side != Opposite(g.snake.direction)
    requires forall i :: 3 <= i < |g.snake.positions| ==> g.snake.positions[i] != g.snake.positions[1]
    ensures var m := Move(g, [KeyPress(Arrow(side)), KeyPress(Arrow(Opposite(g.snake.direction)))]);
      m.ok && Head(m.snake) == g.snake.positions[1]
  {
    var d := g.snake.direction;
    TwoKeysReverse(d, side);
    NextPosUndo(g.snake.positions[1], d);
  }

  /**
   * Food check after the move: a head on the food grows the snake by one
   * segment, scores one point and moves the food to the drawn cell; nothing
   * happens otherwise.
   */
  function Feed(g: State, c: Cell): (r: State)
    requires |g.snake.positions| > 0
    requires ValidCell(c)
    ensures r.snake.positions == g.snake.positions && r.snake.direction == g.snake.direction
    ensures r.snake.score - g.snake.score == r.snake.length - g.snake.length
    ensures r.snake.score == g.snake.score + 1 <==> Head(g.snake) == g.food.position
    ensures r.snake.score != g.snake.score + 1 ==> r == g
    ensures r != g ==> r.food == RandomizePosition(c)
  {
    if Head(g.snake) == g.food.position then
      State(g.snake.(length := g.snake.length + 1, score := g.snake.score + 1), RandomizePosition(c))
    else
      g
  }

  /**
   * The move of a frame: the snake moves one cell with the heading the
   * frame's events leave it, and the move fails exactly when that cell holds
   * a segment at index 3 or later.
   */
  function Move(g: State, events: seq<Event>): (m: Moved)
    requires |g.snake.positions| > 0
    ensures m.snake.direction == Steer(g.snake.direction, events)
    ensures var h := NextPos(Head(g.snake), Steer(g.snake.direction, events));
      && (!m.ok <==> exists i :: 3 <= i < |g.snake.positions| && g.snake.positions[i] == h)
      && (m.ok ==> |m.snake.positions| > 0 && Head(m.snake) == h)
      && (!m.ok ==> m.snake.positions == g.snake.positions)
  {
    Update(g.snake.(direction := Steer(g.snake.direction, events)))
  }

  /**
   * One frame: the events steer the snake, the snake moves; a failed move
   * resets the snake with the drawn direction and moves the food to the
   * drawn cell; then the food check runs on whatever snake there now is.
   */
  function Step(g: State, events: seq<Event>, dr: Draws): (r: State)
    requires |g.snake.positions| > 0
    requires ValidDraws(dr)
    ensures |r.snake.positions| > 0
    ensures r.snake.score in {g.snake.score, g.snake.score + 1, 0, 1}
  {
    var moved := Move(g, events);
    var afterMove :=
      if moved.ok then State(moved.snake, g.food)
      else State(Reset(dr.respawnDirection), RandomizePosition(dr.respawnCell));
    Feed(afterMove, dr.foodCell)
  }

  /**
   * A frame without collision: the snake has taken its move with the steered
   * heading and scores exactly when the new head is on the food, in which
   * case the food moves to the drawn cell and otherwise stays.
   */
  lemma StepWithoutCollision(g: State, events: seq<Event>, dr: Draws)
    requires |g.snake.positions| > 0
    requires ValidDraws(dr)
    requires Move(g, events).ok
    ensures var r := Step(g, events, dr);
      var m := Move(g, events).snake;
      && r.snake.positions == m.positions
      && r.snake.direction == Steer(g.snake.direction, events)
      && (Head(m) == g.food.position ==>
            r.snake.score == g.snake.score + 1 && r.snake.length == g.snake.length + 1
            && r.food == RandomizePosition(dr.foodCell))
      && (Head(m) != g.food.position ==>
            r.snake.score == g.snake.score && r.snake.length == g.snake.length && r.food == g.food)
  {
  }

  /**
   * A frame with a self-collision: the snake starts over at the centre with
   * the drawn direction, and the food moves to the drawn cell; if that cell
   * is the centre the fresh snake eats it at once.
   */
  lemma StepWithCollision(g: State, events: seq<Event>, dr: Draws)
    requires |g.snake.positions| > 0
    requires ValidDraws(dr)
    requires !Move(g, events).ok
    ensures var r := Step(g, events, dr);
      var ateAtOnce := RandomizePosition(dr.respawnCell).position == Center;
      && r.snake.positions == [Center]
      && r.snake.direction == dr.respawnDirection
      && r.snake.score == (if ateAtOnce then 1 else 0)
      && r.snake.length == (if ateAtOnce then 2 else 1)
      && r.food == (if ateAtOnce then RandomizePosition(dr.foodCell) else RandomizePosition(dr.respawnCell))
  {
  }

  /** A frame keeps the game invariant. */
  lemma StepPreservesValid(g: State, events: seq<Event>, dr: Draws)
    requires ValidState(g)
    requires ValidDraws(dr)
    ensures ValidState(Step(g, events, dr))
  {
  }

  /** The inputs of one frame. */
  datatype Frame = Frame(events: seq<Event>, draws: Draws)

  /** The game after running the frames in order. */
  function Play(g: State, frames: seq<Frame>): (r: State)
    requires |g.snake.positions| > 0
    requires forall i :: 0 <= i < |frames| ==> ValidDraws(frames[i].draws)
    ensures |r.snake.positions| > 0
    decreases |frames|
  {
    if |frames| == 0 then g
    else Play(Step(g, frames[0].events, frames[0].draws), frames[1..])
  }

  /** Every state reached from a valid one is valid. */
  lemma {:induction false} PlayPreservesValid(g: State, frames: seq<Frame>)
    requires ValidState(g)
    requires forall i :: 0 <= i < |frames| ==> ValidDraws(frames[i].draws)
    ensures ValidState(Play(g, frames))
    decreases |frames|
  {
    if |frames| > 0 {
      StepPreservesValid(g, frames[0].events, frames[0].draws);
      PlayPreservesValid(Step(g, frames[0].events, frames[0].draws), frames[1..]);
    }
  }

  /** The score rises by at most one per frame. */
  lemma {:induction false} PlayScoreBound(g: State, frames: seq<Frame>)
    requires |g.snake.positions| > 0
    requires g.snake.score >= 0
    requires forall i :: 0 <= i < |frames| ==> ValidDraws(frames[i].draws)
    ensures Play(g, frames).snake.score <= g.snake.score + |frames|
    decreases |frames|
  {
    if |frames| > 0 {
      var g' := Step(g, frames[0].events, frames[0].draws);
      PlayScoreBound(g', frames[1..]);
    }
  }

  /** Running two sequences of frames one after the other is running their concatenation. */
  lemma {:induction false} PlayConcat(g: State, a: seq<Frame>, b: seq<Frame>)
    requires |g.snake.positions| > 0
    requires forall i :: 0 <= i < |a| ==> ValidDraws(a[i].draws)
    requires forall i :: 0 <= i < |b| ==> ValidDraws(b[i].draws)
    ensures forall i :: 0 <= i < |a + b| ==> ValidDraws((a + b)[i].draws)
    ensures Play(g, a + b) == Play(Play(g, a), b)
    decreases |a|
  {
    if |a| > 0 {
      assert (a + b)[0] == a[0];
      assert (a + b)[1..] == a[1..] + b;
      PlayConcat(Step(g, a[0].events, a[0].draws), a[1..], b);
    } else {
      assert a + b == b;
    }
  }
}
