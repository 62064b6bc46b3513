# Snake: the simulation of the base game

A model of the simulation core of the single-file pygame Snake game
(`snake.py`). A snake moves one 20-pixel cell per frame on an 800×800 window
whose edges wrap around (leaving through an edge re-enters at the opposite
one). Arrow keys steer it, but a key that points exactly against the current
heading is ignored. The snake dies when its new head lands on one of its own
segments from index 3 on; the game then silently resets the snake and moves
the food. A head that lands on the food grows the target length and the score
by one, and the food moves to a random cell.

Modules, one per concept of the source:

- `Grid` (`grid.dfy`): the constants `WINDOW_SIZE`, `GRID_SIZE`, `GRID_COUNT`,
  positions, the four direction constants, the toroidal wrap (`Wrap`) and the
  one-cell move (`NextPos`).
- `Snakes` (`snake.dfy`): the `Snake` record, `Head` (`get_head_position`),
  `Update` and `Reset`, and the invariant `Valid` that every snake of the
  game satisfies. In that invariant, `length` is always `score + 1`.
- `Foods` (`food.dfy`): the `Food` record and `RandomizePosition`.
- `Game` (`game.dfy`): key events, the per-event reversal guard (`Turn`), a
  frame's events folded into a heading (`Steer`, `Headings`), the food check
  (`Feed`), one frame of `main` without drawing (`Step`) and a run of frames
  (`Play`).

Randomness is an input. `random.choice` over the four directions becomes a
`Direction` value. Each `random.randint(0, GRID_COUNT-1)` pair becomes a
`Cell` whose indices must lie in `0 .. 39`. One frame may draw a reset
direction, a reset food cell and a food cell after eating, so a frame gets
all three (`Draws`) and uses only those the code would draw.

Python's `%` floors and Dafny's is Euclidean; for the positive modulus 800
they agree, so `Wrap` is plain `%`.

The guard is checked per key event against the heading as changed by the
earlier events of the same frame (`snake.py:87-95`). So two arrow keys in
one frame can turn the snake fully around; `TwoKeysReverse` proves this.
The collision test never looks at index 1, so such a reversal moves the head
onto the snake's own neck without a collision (`ReversalRunsOverNeck`).
Also, when a collision resets the snake and the new food lands on the centre
cell, the fresh snake eats it in the same frame (`StepWithCollision`).

This is the base game. It has no enemies, no difficulty tiers and no
game-over state. A self-collision calls `reset()` silently. Every food is
worth one point. Direction changes apply per key event.

## Model

| member | source | states |
|---|---|---|
| Grid.Opposite | snake.py:72-95 | the opposite direction has the negated unit vector and differs from the original |
| Grid.Wrap | snake.py:38 | the wrapped coordinate lies in [0, 800), differs from the input by a multiple of 800, and keeps a multiple of 20 a multiple of 20 |
| Grid.WrapUnique | snake.py:38 | the wrapped value is the only value in [0, 800) congruent to the input modulo 800 |
| Grid.NextPos | snake.py:36-38 | the next head lies inside the window, is congruent to head + direction·20 on each axis, and stays a grid cell when the head was one |
| Grid.NextPosUndo | snake.py:38 | a move followed by a move the opposite way returns to the start, also across an edge |
| Grid.NextPosWrapsAtEdges | snake.py:38 | on the board, a move goes exactly one cell; leaving through any edge re-enters at the opposite edge instead of failing |
| Snakes.Head | snake.py:32-33 | the head is a segment of the body, and lies on a board cell when the snake is valid |
| Snakes.Update | snake.py:35-45 | fails exactly when the new head equals a segment at index 3 or later, and then leaves the snake unchanged; never fails for a body of at most 3 segments; on success the new head is first, the rest is a prefix of the old body that drops the last segment exactly when the body had reached `length`, and a body within `length` stays within it |
| Snakes.UpdatePreservesValid | snake.py:42-45 | a successful move keeps the body non-empty, within `length` and on grid cells |
| Snakes.Reset | snake.py:47-51 | the restart state (one segment at the centre, length 1, score 0, the drawn direction) satisfies the snake invariant |
| Foods.RandomizePosition | snake.py:63-65 | the food lands on a grid-aligned cell in [0, 780] on both axes |
| Foods.RandomizePositionCoversBoard | snake.py:64-65 | every board cell is reachable by exactly one pair of drawn indices |
| Game.Turn | snake.py:87-95 | a key event never sets the heading to the opposite of the current one; an arrow key not opposite to the current heading sets it, and every other event leaves it |
| Game.Headings | snake.py:83-95 | along the events of a frame, each heading follows from the previous one by the guard and is never its opposite; the last is the frame's final heading |
| Game.Steer | snake.py:83-95 | a frame ends with its starting heading or with the direction of one of its arrow keys; a frame of at most one event never ends opposite to its starting heading |
| Game.TwoKeysReverse | snake.py:83-95 | a perpendicular key followed by the reverse key in one frame reverses the heading |
| Game.ReversalRunsOverNeck | snake.py:83-98 | a snake that has just moved straight, given a perpendicular key and then the reverse key in one frame, moves its head onto its neck (index 1) and the move succeeds |
| Game.Move | snake.py:83-98 | the move of a frame goes one cell in the steered heading and fails exactly when that cell holds a segment at index 3 or later, leaving the body as it was |
| Game.Feed | snake.py:102-106 | the snake eats exactly when its head is on the food; eating adds exactly 1 to both score and length, leaves body and heading unchanged and moves the food to the drawn cell; otherwise nothing changes |
| Game.Step | snake.py:97-106 | after a frame the body is non-empty and the score has stayed, risen by one, or restarted at 0 or 1 |
| Game.StepWithoutCollision | snake.py:97-106 | without a collision the snake has moved with the steered heading and scores exactly when the new head is on the food, which then moves to the drawn cell and otherwise stays |
| Game.StepWithCollision | snake.py:98-106 | after a collision the snake is back at the centre with the drawn direction and the food on the drawn reset cell, unless that cell is the centre, in which case the fresh snake eats it at once |
| Game.StepPreservesValid | snake.py:97-106 | a frame keeps the snake invariant and keeps the food on a board cell |
| Game.Play | snake.py:82-106 | after any run of frames the snake still has a head |
| Game.PlayConcat | snake.py:82-106 | running frames one after another composes: a run of a + b is the run of b from where a ended |
| Game.PlayPreservesValid | snake.py:82-106 | every state reached by any sequence of frames from a valid state is valid |
| Game.PlayScoreBound | snake.py:82-106 | the score rises by at most one per frame |

## Left out

- Drawing and pacing: `pygame.init`, the window, `clock.tick`, the `render` methods, the score text and `display.update` (snake.py:1-6, 19-22, 53-55, 67-69, 108-119). They are I/O.
- Event polling and the `QUIT` event, which ends the process (snake.py:83-86). The events of a frame are an input sequence. Only key presses matter.
- The distributions of `random.choice` and `random.randint`. Draws are inputs constrained to their ranges, not probabilities.
- Colours (snake.py:13-17, 29, 60). They are cosmetic.
- `Snake.__init__` and `Food.__init__` (snake.py:25-30, 58-61). They build the same state as `Reset` and `RandomizePosition`, so they have no members of their own.
- Game.Step: its own contract only bounds the score; the full behaviour is stated by `StepWithoutCollision` and `StepWithCollision`.
