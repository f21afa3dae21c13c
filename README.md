# KObra: two snakes on a wrapping grid

A Dafny model of the rules of the KObra game, in which a player snake and an
AI snake share a board whose edges wrap around. The rules come in three
versions:

- `src/script.js`, the browser game. A tick takes at most one buffered
  direction for the player and refuses a reversal. It computes both next
  heads and marks collisions against the bodies as they were before the tick:
  a body hit, with the tail of a snake that does not eat red skipped; two
  heads landing on the same cell; two heads swapping places. If a snake is
  marked dead, nothing else changes and the game ends. Otherwise both bodies
  move in place: red grows the eater and green pops the opponent's tail.
  Eaten apples are put back on free cells. Finally a snake of length one
  loses, and a snake of length `WIN_LENGTH` (15) wins.
- `script.js`, the earlier browser game: the same rules without the win
  length.
- `src/snake_env.py`, the headless training environment. It works in a
  different order:
  - both snakes prepend their next head;
  - collisions are checked on those longer bodies, so no tail is exempt;
  - `handle_apples` then pops tails, red and green;
  - the outcome is decided last.

  Bodies therefore change even on a tick in which a snake dies.

Layout:

- `wrappers.dfy`: `Option`.
- `grid.dfy`, module `Grid`: cells, directions, the wrap-around step of the
  browser games, and the pigeonhole fact that guarantees a free cell.
- `input_queue.dfy`, module `InputQueue`: the player's input buffer. It holds
  the enqueue test of the key handler and the one-entry consumption of a
  tick, both as functions. The invariant they keep, `Chained`, says the
  buffer holds unit directions, no duplicates, and no entry reversing the
  one before it.
- `tick_rules.dfy`, module `TickRules`: one browser tick as functions on
  values. That is, the plans, the collision marking (with the loop method
  `DetectCollisions` proved against it), the bodies after a tick nobody dies
  in, and the verdicts.
- `kobra.dfy`, module `Kobra`: the browser game state as a class `Game`
  whose methods update it in place. Both JavaScript files are this one
  class. The constant `winLength` is `Some(15)` for `src/script.js` and
  `None` for `script.js`.
- `training_env.dfy`, module `TrainingEnv`: the classes `SnakeAgent` and
  `SnakeEnv`. It also holds lemmas comparing the environment's rules with
  the browser's.

Properties proved include the following:

- The input buffer never holds a reversal, so the tick's reversal test never
  fires on a buffered entry, and the buffer never holds more than four
  entries.
- A tick nobody dies in keeps every segment on the board, no cell repeated
  within a body and no cell shared by the two bodies.
- The order of the "apply moves" loop does not matter for the bodies while
  both snakes have two segments or more. Where the apples end up may still
  depend on the order: a red apple the player respawns may land on the AI's
  next head, because the AI has not moved yet.
- Every browser verdict (death, length one, win length) is mirrored when the
  two snakes are exchanged. The environment's outcome is not: when both
  snakes reach the win length, the player wins.
- The training environment's collision test is the browser's marking with
  no tail exemption, and every browser death is also a death in the
  environment.
- When both snakes reach the win length, the environment gives the win to
  the player, while `src/script.js` calls a draw.
- The environment's reward is zero-sum.

In the environment, a respawned red apple (`spawn_apple()` with no
`exclude`) may land on the green apple; only the green respawn avoids the
red one. The model states exactly that and no more.

Randomness is a nondeterministic choice. `spawnApple`'s retry loop is a
choice of a cell that passes its acceptance test, and `random.choice` is a
choice of an index into the list of free cells.

## Model

| member | source | states |
|---|---|---|
| Grid.JsNextHead | src/script.js:257-260 | for a head on the board and a unit direction, the next head is on the board, is the torus neighbour `(x+dx) mod 16, (y+dy) mod 16`, and differs from the head |
| Grid.FreeCellExists | src/script.js:53-74 | with fewer occupied entries than the 256 cells, some cell on the board is free, so the retry loop of `spawnApple` can stop |
| InputQueue.Enqueued | src/script.js:373-382 | a direction is appended exactly when it neither reverses the last pending direction (the last queued one, or the current one when the buffer is empty) nor is already queued; otherwise the buffer is unchanged; duplicates never arise; the same code in the earlier game is script.js:314-323 |
| InputQueue.Steered | src/script.js:247-252 | the player's new direction is the front entry when there is one and it does not reverse the current direction; otherwise it is the current direction |
| InputQueue.Consumed | src/script.js:247-249 | a tick removes exactly the front entry when there is one, and nothing otherwise |
| InputQueue.EnqueueKeepsChained | src/script.js:373-382 | the enqueue step keeps the buffer chained: unit directions, no duplicates, no entry reversing its predecessor or the current direction |
| InputQueue.ConsumeKeepsChained | src/script.js:247-252 | on a chained buffer the reversal test never fires, so the front entry always becomes the direction, and the rest stays chained relative to it |
| InputQueue.QueueAtMostFour | src/script.js:373-382 | a chained buffer holds at most four entries |
| TickRules.Side.Opponent | src/script.js:312 | the opponent of a snake is the other snake |
| TickRules.PlanFor | src/script.js:254-265 | a plan keeps the current head; its next head is the wrapped step `JsNextHead` of the head, so on the board and different from the head; it eats red (green) exactly when that apple lies on the next head |
| TickRules.DetectCollisions | src/script.js:267-289 | the nested loops plus the head-on and head-swap tests mark a snake dead exactly when its next head hits a segment of either body (skipping the tail of a snake not eating red), or the heads meet, or they swap; the same code in the earlier game is script.js:219-241 |
| TickRules.DiesSymmetric | src/script.js:267-289 | exchanging the two snakes exchanges the marks |
| TickRules.VacatedTailIsSafe | src/script.js:272-274 | moving onto the tail a non-growing snake vacates is no hit, whoever owns the tail; the same cell is a hit when the owner grows |
| TickRules.Advance | src/script.js:307-308 | `unshift` then `pop` unless eating red: the new head in front of the body, length up by one on red, unchanged otherwise |
| TickRules.Shrunk | src/script.js:312-313 | the green effect removes the last segment only when the body is longer than one |
| TickRules.Moved | src/script.js:306-316 | after the apply-moves loop each body starts with its new head; the player's body is a prefix of its advanced body and the AI's rest a prefix of the cells it kept |
| TickRules.MovedLengths | src/script.js:306-316 | with both snakes at two or more segments, a length changes by +1 on red and -1 when the other snake eats green; the same code in the earlier game is script.js:258-268 |
| TickRules.ShrunkAdvanceCommute | src/script.js:306-316 | popping a tail commutes with a move on a body of two or more segments |
| TickRules.MovedOrderIrrelevant | src/script.js:306-316 | running the apply-moves loop AI first gives the same bodies |
| TickRules.MovedInGrid | src/script.js:306-316 | a tick keeps every segment on the board |
| TickRules.HitsBodyKept | src/script.js:267-281 | a body hit is exactly a cell the owner keeps in place this tick |
| TickRules.MovedKeepsSeparated | src/script.js:267-316 | a tick nobody dies in keeps each body free of repeated cells and the two bodies disjoint |
| TickRules.DeathVerdict | src/script.js:291-303 | both dead is a draw, the player alone dead an AI win, the AI alone dead a player win |
| TickRules.ShortVerdict | src/script.js:319-330 | both at one segment or less is a draw, otherwise a snake at one segment or less loses; nothing happens while both are longer |
| TickRules.LongVerdict | src/script.js:332-342 | both at the win length or more is a draw, otherwise the snake at the win length wins |
| TickRules.EndVerdict | src/script.js:319-342 | the length-one verdict decides whenever it is not pending; otherwise, with a win length, the win-length verdict decides; the game goes on exactly when both lengths are above one and, with a win length, below it; the earlier game, with no win length, has the length-one check alone at script.js:270-283 |
| TickRules.EndWithoutWinLength | script.js:270-283 | in the earlier game only the length-one check ends a game: while both snakes are longer than one segment, no length ends it |
| TickRules.VerdictsSymmetric | src/script.js:291-342 | the death and end verdicts are mirrored when the snakes are exchanged |
| TickRules.ShortBeatsLong | src/script.js:319-342 | the length-one check comes first: a one-segment player loses even when the AI has reached the win length |
| Kobra.Game.constructor | src/script.js:418-421 | the initial state: the fixed bodies heading right, an empty buffer, no verdict, a red apple and then a green apple on free cells; the same code in the earlier game is script.js:359-362 |
| Kobra.Game.RoomForApple | src/script.js:53-74 | while the bodies leave room, a cell passes the acceptance test of `spawnApple` |
| Kobra.Game.SpawnApple | src/script.js:53-74 | the chosen cell is on the board, off both bodies, off the other apple and off `forbidden`; the other apple is untouched; the same code in the earlier game is script.js:51-72 |
| Kobra.Game.GameOver | src/script.js:232-240 | the game is over with the given verdict; the same code in the earlier game is script.js:184-192 |
| Kobra.Game.Enqueue | src/script.js:373-382 | the buffer becomes `Enqueued` of the old buffer, and the game invariant is kept; the same code in the earlier game is script.js:314-323 |
| Kobra.Game.Steer | src/script.js:246-252 | the front entry leaves the buffer and becomes the direction unless it reverses it; the chain invariant is kept |
| Kobra.Game.ApplyPlan | src/script.js:306-316 | one iteration of the apply-moves loop: the mover advances, green shrinks the opponent, and eaten apples come back off the bodies |
| Kobra.Game.Update | src/script.js:243-345 | a finished game is unchanged; otherwise the buffer is consumed, the player steered, and the tick resolved (see `Resolve`), keeping the game invariant; the same code in the earlier game is script.js:195-286 |
| Kobra.Game.Resolve | src/script.js:254-345 | a death tick changes no body and no apple and ends the game with the death verdict; otherwise the bodies are `Moved`, the apples respawned as eaten, and the verdict is `EndVerdict` |
| Kobra.Game.MoveAndCheck | src/script.js:305-342 | on a tick nobody dies in, the bodies are `Moved`, eaten apples come back, and the end checks decide the verdict |
| Kobra.Game.ApplyMoves | src/script.js:305-316 | the loop leaves the bodies `Moved`, on the board and separated, and each eaten apple respawned off the eater and off the other snake's kept cells; the same code in the earlier game is script.js:257-268 |
| Kobra.Game.CheckLengths | src/script.js:318-344 | the verdict after the moves is `EndVerdict` of the two lengths, and the game is over exactly when it is not pending; the earlier game, with no win length, has the length-one check alone at script.js:270-283 |
| Kobra.Game.Restart | src/script.js:386-416 | the fixed bodies heading right, an empty buffer, `isGameOver` and `gameStarted` cleared, a red apple off the green one still on the board, then a green apple off the new red one; the same code in the earlier game is script.js:327-357 |
| TrainingEnv.Wrapped | src/snake_env.py:111-114 | the next head is on the board; inside the board it is `head + d`, and one step past an edge comes back at the opposite edge |
| TrainingEnv.WrapStep | src/snake_env.py:112-113 | Python's remainder with a positive divisor is the identity on the board and wraps one step past either edge |
| TrainingEnv.WrappedMatchesBrowser | src/snake_env.py:111-114 | on the 16 x 16 board the environment's step equals the browser games' step |
| TrainingEnv.CollidesIsGrowingRule | src/snake_env.py:118-129 | checking collisions after inserting the heads is exactly the browser's marking with both snakes growing, head-on and head swap included |
| TrainingEnv.BrowserDeathIsCollision | src/snake_env.py:118-129 | every browser death, whatever the snakes eat, is a collision in the environment |
| TrainingEnv.MealsFor | src/snake_env.py:180-196 | the player eats an apple exactly when it lies on the player's head; the AI eats it exactly when it lies on the AI's head and the player did not eat it; when both heads share a cell only the player eats |
| TrainingEnv.AfterApples | src/snake_env.py:177-199 | both bodies keep their heads and at least one segment, and each is a prefix of its body with the head inserted |
| TrainingEnv.StepLengths | src/snake_env.py:177-199 | over a step a snake grows by one on red, keeps its length otherwise, and loses one when the opponent eats green while it is longer than one segment |
| TrainingEnv.Outcome | src/snake_env.py:156-173 | deaths decide as in the browser; otherwise the player wins at the win length, the AI wins at it only if the player is below, and no draw arises |
| TrainingEnv.OutcomeDiffersFromBrowser | src/snake_env.py:167-173 | both at the win length is a player win here but a draw in `src/script.js`; a one-segment snake ends the browser game but not the episode |
| TrainingEnv.Reward | src/snake_env.py:213-225 | 1 exactly for a player win, -1 exactly for an AI win, 0 for a draw or no winner |
| TrainingEnv.RewardMirrored | src/snake_env.py:213-225 | exchanging the snakes negates the reward |
| TrainingEnv.SnakeAgent.constructor | src/snake_env.py:16-19 | the agent holds the given body, direction and role |
| TrainingEnv.SnakeAgent.Copy | src/snake_env.py:27-29 | a new agent with the same body, direction and role |
| TrainingEnv.SnakeEnv.constructor | src/snake_env.py:38-58 | the environment after `reset`, with the given dimensions and a win length of 15 |
| TrainingEnv.SnakeEnv.Reset | src/snake_env.py:61-87 | new agents at the fixed bodies heading right, no winner, a red apple on any free cell (or none) and a green apple off the red one (or none) |
| TrainingEnv.SnakeEnv.SpawnApple | src/snake_env.py:90-97 | the result is on the board, on neither body and not excluded; it is `None` exactly when no such cell exists |
| TrainingEnv.SnakeEnv.MoveSnake | src/snake_env.py:103-116 | the wrapped next head is inserted in front; nothing changes once the episode is done |
| TrainingEnv.SnakeEnv.CheckCollision | src/snake_env.py:118-129 | the head is on the rest of its own body or anywhere on the other snake, the other chosen by `is_ai` |
| TrainingEnv.SnakeEnv.HandleApples | src/snake_env.py:177-199 | the bodies become `AfterApples` of the meals; an uneaten apple stays; an eaten one comes back off both final bodies, and a respawned green one off the red one |
| TrainingEnv.SnakeEnv.Decide | src/snake_env.py:156-173 | the winner becomes `Outcome` of the deaths and the lengths, and the episode is done exactly when there is one |
| TrainingEnv.SnakeEnv.Step | src/snake_env.py:132-175 | a finished episode is unchanged with reward 0; otherwise the directions are set, the heads inserted, collisions checked on the longer bodies, apples handled and the outcome decided, and the reward is `Reward` of the winner |

## Left out

- Drawing, canvas resizing and the HUD: `drawGrid`, `drawSnake` and `resizeCanvasToWindow` compute floating-point pixel layout and hold no rules.
- The `keydown` and `resize` listeners: only the enqueue step of the key handler is modelled. The mapping from key names to directions, the Enter key's restart and the setting of `gameStarted` are input wiring. `gameStarted` is a field that `Restart` clears.
- The timer: `setInterval`, `clearInterval`, `startGameLoop` and `gameInterval` are left out. One `Update` call is one tick.
- Randomness: `Math.random`, `random.seed` and `random.choice` become a nondeterministic choice of an acceptable cell; distributions are not modelled. The `seed` arguments of `SnakeEnv(...)` and `reset` are left out.
- The `gameOverMessage` strings are the `Verdict` values. The observation dictionary of `get_state` and the `info` dictionary of `step` are left out.
- `SnakeAgent.head`, `SnakeAgent.length` and `SnakeEnv.inside_bounds` are read directly as `body[0]`, `|body|` and `InBounds`.
- Kobra.Game.SpawnApple: requires a free cell. The source's retry loop never ends when there is none, and the model does not represent a loop that does not end.
- Kobra.Game.Update: for the game without a win length (`script.js`), requires room on the board for both snakes to grow and both apples to be placed. In that game a long enough match fills the board and `spawnApple` never returns. With the win length of `src/script.js`, the room follows from the game invariant.
- Kobra.Game.Restart: requires the constant `winLength` to be one of the two games' values, which every constructed game satisfies.
- TrainingEnv.SnakeEnv.Step: requires positive dimensions. With a zero dimension `move_snake` raises a division error; a negative one is not modelled.
- TrainingEnv.SnakeEnv.HandleApples: does not state that an eaten apple comes back as `None` only when the board was full at that moment. `SpawnApple` states it for each call.
