/** The browser games of src/script.js and script.js: the module-level state
    (both snakes, both apples, the input buffer and the game-over flags) as
    one object whose methods are `spawnApple`, `gameOver`, `update`, the
    enqueue step of the key handler and `restartGame`. The two files differ
    only in the win-by-length check of src/script.js, present when the
    object's `winLength` is `Some(WinLength)` and absent when it is `None`. */
module Kobra {
  import opened Wrappers
  import opened Grid
  import opened TickRules
  import InputQueue

  /** `WIN_LENGTH`: whoever reaches this length first wins. */
  const WinLength: int := 15

  datatype AppleColor = Red | Green

  class Game {
    /** `WIN_LENGTH` in src/script.js; the game of script.js has none. */
    const winLength: Option<int>
    var playerBody: seq<Cell>
    var aiBody: seq<Cell>
    var playerDir: Dir
    var aiDir: Dir
    var redApple: Option<Cell>
    var greenApple: Option<Cell>
    var inputQueue: seq<Dir>
    var isGameOver: bool
    var gameStarted: bool
    /** `gameOverMessage`, `Pending` standing for the empty message. */
    var verdict: Verdict

    /** Both apples, when present, on the board and on different cells. */
    ghost predicate ApplesApart()
      reads this
    {
      && (redApple.Some? ==> InGrid(redApple.value))
      && (greenApple.Some? ==> InGrid(greenApple.value))
      && (redApple.None? || redApple != greenApple)
    }

    ghost predicate Valid()
      reads this
    {
      && (winLength == None || winLength == Some(WinLength))
      && 1 <= |playerBody| && 1 <= |aiBody|
      && (winLength.Some? ==> |playerBody| <= WinLength && |aiBody| <= WinLength)
      && (!isGameOver ==> 2 <= |playerBody| && 2 <= |aiBody|)
      && (!isGameOver && winLength.Some? ==> |playerBody| < WinLength && |aiBody| < WinLength)
      && AllInGrid(playerBody) && AllInGrid(aiBody)
      && Separated(playerBody, aiBody)
      && IsUnit(playerDir) && aiDir == Right
      && InputQueue.Chained(inputQueue, playerDir)
      && ApplesApart()
      && (isGameOver <==> verdict != Pending)
    }

    /** The apples after a tick nobody dies in: an eaten apple is respawned,
        the other one stays where it was. */
    ghost predicate ApplesAfter(pp: Plan, ap: Plan, oldRed: Option<Cell>, oldGreen: Option<Cell>)
      reads this`playerBody, this`aiBody, this`redApple, this`greenApple
    {
      && (if pp.ateRed then Respawned(redApple, playerBody, aiBody)
          else if ap.ateRed then Respawned(redApple, aiBody, playerBody)
          else redApple == oldRed)
      && (if pp.ateGreen then Respawned(greenApple, playerBody, aiBody)
          else if ap.ateGreen then Respawned(greenApple, aiBody, playerBody)
          else greenApple == oldGreen)
    }

    /** Room on the board for both snakes to grow and for both apples: the
        retry loop of `spawnApple` can stop. Bounded by the winning length in
        src/script.js; in script.js a long enough game fills the board and
        the loop never stops. */
    predicate RoomToGrow()
      reads this
    {
      |playerBody| + |aiBody| + 4 < Cols * Rows
    }

    function Body(side: Side): (body: seq<Cell>)
      reads this
    {
      if side == Player then playerBody else aiBody
    }

    /** The acceptance test of `spawnApple`'s retry loop for cell `c`. */
    predicate FreeFor(c: Cell, color: AppleColor, forbidden: Option<Cell>)
      reads this
    {
      && InGrid(c)
      && c !in playerBody && c !in aiBody
      && (color == Red ==> greenApple != Some(c))
      && (color == Green ==> redApple != Some(c))
      && forbidden != Some(c)
    }

    /** The initial setup: fixed bodies heading right, an empty buffer, then a
        red and a green apple. */
    constructor (withWinLength: bool)
      ensures Valid()
      ensures winLength == if withWinLength then Some(WinLength) else None
      ensures playerBody == InitialPlayerBody && aiBody == InitialAIBody
      ensures playerDir == Right && aiDir == Right && inputQueue == []
      ensures !isGameOver && !gameStarted && verdict == Pending
      ensures redApple.Some? && greenApple.Some? && FreeFor(redApple.value, Red, None)
      ensures FreeFor(greenApple.value, Green, None)
    {
      winLength := if withWinLength then Some(WinLength) else None;
      playerBody, aiBody := InitialPlayerBody, InitialAIBody;
      playerDir, aiDir := Right, Right;
      redApple, greenApple := None, None;
      inputQueue := [];
      isGameOver, gameStarted := false, false;
      verdict := Pending;
      new;
      RoomForApple(Red, None);
      SpawnApple(Red, None);
      RoomForApple(Green, None);
      SpawnApple(Green, None);
    }

    /** Enough free cells for `spawnApple` to stop. */
    lemma RoomForApple(color: AppleColor, forbidden: Option<Cell>)
      requires |playerBody| + |aiBody| + 2 < Cols * Rows
      ensures exists c :: FreeFor(c, color, forbidden)
    {
      var other := if color == Red then greenApple else redApple;
      var occupied := playerBody + aiBody
        + (if other.Some? then [other.value] else [])
        + (if forbidden.Some? then [forbidden.value] else []);
      FreeCellExists(occupied);
      var c :| InGrid(c) && c !in occupied;
      assert FreeFor(c, color, forbidden);
    }

    /** `spawnApple(color, forbidden)`: the retry loop ends on a random free
        cell; the model chooses any free cell. */
    method SpawnApple(color: AppleColor, forbidden: Option<Cell>)
      requires exists c :: FreeFor(c, color, forbidden)
      modifies this`redApple, this`greenApple
      ensures color == Red ==>
                redApple.Some? && FreeFor(redApple.value, Red, forbidden) && greenApple == old(greenApple)
      ensures color == Green ==>
                greenApple.Some? && FreeFor(greenApple.value, Green, forbidden) && redApple == old(redApple)
    {
      var c :| FreeFor(c, color, forbidden);
      if color == Red {
        redApple := Some(c);
      } else {
        greenApple := Some(c);
      }
    }

    /** `gameOver(message)`; stopping the timer and drawing are not modelled. */
    method GameOver(v: Verdict)
      requires v != Pending
      modifies this`isGameOver, this`verdict
      ensures isGameOver && verdict == v
    {
      isGameOver := true;
      verdict := v;
    }

    /** The enqueue step of the key handler for a movement key. */
    method Enqueue(d: Dir)
      requires Valid() && IsUnit(d)
      modifies this`inputQueue
      ensures Valid()
      ensures inputQueue == InputQueue.Enqueued(old(inputQueue), playerDir, d)
    {
      var lastDir := if |inputQueue| > 0 then inputQueue[|inputQueue| - 1] else playerDir;
      var isOpposite := Opposite(d, lastDir);
      var alreadyQueued := d in inputQueue;
      if !isOpposite && !alreadyQueued {
        inputQueue := inputQueue + [d];
      }
      InputQueue.EnqueueKeepsChained(old(inputQueue), playerDir, d);
    }

    method SetBody(side: Side, body: seq<Cell>)
      modifies this`playerBody, this`aiBody
      ensures Body(side) == body && Body(side.Opponent()) == old(Body(side.Opponent()))
    {
      if side == Player {
        playerBody := body;
      } else {
        aiBody := body;
      }
    }

    /** One iteration of the "apply moves" loop: `unshift` the new head, `pop`
        unless growing, respawn an eaten red apple, and on green shrink the
        opponent and respawn the green apple. */
    method ApplyPlan(side: Side, p: Plan)
      requires |Body(side)| > 0 && |playerBody| + |aiBody| + 3 < Cols * Rows
      requires InGrid(p.newHead) && ApplesApart()
      modifies this`playerBody, this`aiBody, this`redApple, this`greenApple
      ensures ApplesApart()
      ensures Body(side) == Advance(old(Body(side)), p)
      ensures Body(side.Opponent())
                == if p.ateGreen then Shrunk(old(Body(side.Opponent()))) else old(Body(side.Opponent()))
      ensures !p.ateRed ==> redApple == old(redApple)
      ensures p.ateRed ==>
                && redApple.Some? && InGrid(redApple.value)
                && redApple.value !in Body(side) && redApple.value !in old(Body(side.Opponent()))
      ensures !p.ateGreen ==> greenApple == old(greenApple)
      ensures p.ateGreen ==>
                && greenApple.Some? && InGrid(greenApple.value)
                && greenApple.value !in Body(side) && greenApple.value !in Body(side.Opponent())
    {
      var opponent := side.Opponent();
      SetBody(side, Advance(Body(side), p));
      if p.ateRed {
        RoomForApple(Red, Some(p.newHead));
        SpawnApple(Red, Some(p.newHead));
      }
      if p.ateGreen {
        if |Body(opponent)| > 1 {
          SetBody(opponent, Body(opponent)[..|Body(opponent)| - 1]);
        }
        RoomForApple(Green, Some(p.newHead));
        SpawnApple(Green, Some(p.newHead));
      }
    }

    /** What the collision and move part of a tick does, from the bodies and
        apples it started with and the directions now in force: a death tick
        changes no body and no apple; otherwise both snakes move, eaten apples
        are respawned and the end checks run. */
    ghost predicate Resolved(pBody: seq<Cell>, aBody: seq<Cell>, red: Option<Cell>, green: Option<Cell>)
      requires |pBody| > 0 && |aBody| > 0
      reads this
    {
      var pp := PlanFor(pBody, playerDir, red, green);
      var ap := PlanFor(aBody, aiDir, red, green);
      var playerDied := PlayerDies(pBody, aBody, pp, ap);
      var aiDied := AIDies(pBody, aBody, pp, ap);
      && (playerDied || aiDied ==>
            && playerBody == pBody && aiBody == aBody
            && redApple == red && greenApple == green
            && isGameOver && verdict == DeathVerdict(playerDied, aiDied))
      && (!playerDied && !aiDied ==> MovedAndChecked(pBody, aBody, pp, ap, red, green))
    }

    /** The state after a tick nobody dies in. */
    ghost predicate MovedAndChecked(pBody: seq<Cell>, aBody: seq<Cell>, pp: Plan, ap: Plan,
                                    red: Option<Cell>, green: Option<Cell>)
      requires |pBody| > 0 && |aBody| > 0
      reads this
    {
      var moved := Moved(pBody, aBody, pp, ap);
      && playerBody == moved.player && aiBody == moved.ai
      && ApplesAfter(pp, ap, red, green)
      && verdict == EndVerdict(|playerBody|, |aiBody|, winLength)
      && (isGameOver <==> verdict != Pending)
    }

    /** `update`: one tick; nothing happens once the game is over. Otherwise
        the front of the buffer steers the player (a reversal is refused) and
        the tick is resolved with the new direction. */
    method Update()
      requires Valid() && (winLength.None? ==> RoomToGrow())
      modifies this
      ensures Valid()
      ensures old(isGameOver) ==> unchanged(this)
      ensures !old(isGameOver) ==>
                && gameStarted == old(gameStarted) && aiDir == old(aiDir)
                && inputQueue == InputQueue.Consumed(old(inputQueue))
                && playerDir == InputQueue.Steered(old(inputQueue), old(playerDir))
                && Resolved(old(playerBody), old(aiBody), old(redApple), old(greenApple))
    {
      if isGameOver {
        return;
      }
      Steer();
      Resolve();
    }

    /** The part of `update` after steering: plans, collisions, moves and the
        end checks. */
    method Resolve()
      requires Valid() && !isGameOver && RoomToGrow()
      modifies this`playerBody, this`aiBody, this`redApple, this`greenApple, this`isGameOver, this`verdict
      ensures Valid()
      ensures Resolved(old(playerBody), old(aiBody), old(redApple), old(greenApple))
    {
      var pp := PlanFor(playerBody, playerDir, redApple, greenApple);
      var ap := PlanFor(aiBody, aiDir, redApple, greenApple);
      var playerDied, aiDied := DetectCollisions(playerBody, aiBody, pp, ap);
      if playerDied || aiDied {
        GameOver(DeathVerdict(playerDied, aiDied));
        return;
      }
      MoveAndCheck(pp, ap);
    }

    /** The "apply moves" loop and the end checks of a tick nobody dies in. */
    method MoveAndCheck(pp: Plan, ap: Plan)
      requires Valid() && !isGameOver && RoomToGrow()
      requires pp == PlanFor(playerBody, playerDir, redApple, greenApple)
      requires ap == PlanFor(aiBody, aiDir, redApple, greenApple)
      requires !PlayerDies(playerBody, aiBody, pp, ap) && !AIDies(playerBody, aiBody, pp, ap)
      modifies this`playerBody, this`aiBody, this`redApple, this`greenApple, this`isGameOver, this`verdict
      ensures Valid()
      ensures MovedAndChecked(old(playerBody), old(aiBody), pp, ap, old(redApple), old(greenApple))
    {
      ghost var red0, green0 := redApple, greenApple;
      ApplyMoves(pp, ap);
      MovedLengths(old(playerBody), old(aiBody), pp, ap);
      CheckLengths();
      assert ApplesAfter(pp, ap, red0, green0);
    }

    /** Apply buffered input to the player, refusing a reversal: the front of
        the buffer leaves it. */
    method Steer()
      requires IsUnit(playerDir) && InputQueue.Chained(inputQueue, playerDir)
      modifies this`inputQueue, this`playerDir
      ensures inputQueue == InputQueue.Consumed(old(inputQueue))
      ensures playerDir == InputQueue.Steered(old(inputQueue), old(playerDir))
      ensures IsUnit(playerDir) && InputQueue.Chained(inputQueue, playerDir)
    {
      if |inputQueue| > 0 {
        var next := inputQueue[0];
        inputQueue := inputQueue[1..];
        var lastDir := playerDir;
        var isOpposite := Opposite(next, lastDir);
        if !isOpposite {
          playerDir := next;
        }
      }
      InputQueue.ConsumeKeepsChained(old(inputQueue), old(playerDir));
    }

    /** The "apply moves" loop of `update`, on a tick nobody dies in. */
    method ApplyMoves(pp: Plan, ap: Plan)
      requires 2 <= |playerBody| && 2 <= |aiBody| && RoomToGrow()
      requires AllInGrid(playerBody) && AllInGrid(aiBody) && Separated(playerBody, aiBody)
      requires ApplesApart() && InGrid(pp.newHead) && InGrid(ap.newHead)
      requires pp.ateRed <==> redApple == Some(pp.newHead)
      requires ap.ateRed <==> redApple == Some(ap.newHead)
      requires pp.ateGreen <==> greenApple == Some(pp.newHead)
      requires ap.ateGreen <==> greenApple == Some(ap.newHead)
      requires !PlayerDies(playerBody, aiBody, pp, ap) && !AIDies(playerBody, aiBody, pp, ap)
      modifies this`playerBody, this`aiBody, this`redApple, this`greenApple
      ensures playerBody == Moved(old(playerBody), old(aiBody), pp, ap).player
      ensures aiBody == Moved(old(playerBody), old(aiBody), pp, ap).ai
      ensures AllInGrid(playerBody) && AllInGrid(aiBody) && Separated(playerBody, aiBody)
      ensures ApplesApart()
      ensures ApplesAfter(pp, ap, old(redApple), old(greenApple))
    {
      ghost var pBody, aBody := playerBody, aiBody;
      MovedLengths(pBody, aBody, pp, ap);
      MovedInGrid(pBody, aBody, pp, ap);
      MovedKeepsSeparated(pBody, aBody, pp, ap);
      ApplyPlan(Player, pp);
      ghost var p1 := playerBody;
      ApplyPlan(AI, ap);
      ghost var moved := Moved(pBody, aBody, pp, ap);
      assert playerBody == moved.player && aiBody == moved.ai;
      // an apple respawned by the player stays off the AI's kept cells
      ghost var a1 := if pp.ateGreen then Shrunk(aBody) else aBody;
      assert aiBody == [ap.newHead] + Kept(a1, ap);
      forall c | c in playerBody ensures c in p1 {
        InPrefix(playerBody, p1, c);
      }
      forall i | 1 <= i < |aiBody| ensures aiBody[i] in a1 {
        InPrefix(Kept(a1, ap), a1, aiBody[i]);
      }
    }

    /** The end checks after the moves: the length-1 check, then the
        win-by-length check. */
    method CheckLengths()
      requires !isGameOver && verdict == Pending
      modifies this`isGameOver, this`verdict
      ensures verdict == EndVerdict(|playerBody|, |aiBody|, winLength)
      ensures isGameOver <==> verdict != Pending
    {
      var playerLen, aiLen := |playerBody|, |aiBody|;
      var short := ShortVerdict(playerLen, aiLen);
      if short != Pending {
        GameOver(short);
        return;
      }
      if winLength.Some? {
        var long := LongVerdict(playerLen, aiLen, winLength.value);
        if long != Pending {
          GameOver(long);
          return;
        }
      }
    }

    /** `restartGame`: fixed bodies heading right, an empty buffer, the flags
        cleared, then a red apple away from the green one still on the board
        and a green apple away from the new red one. */
    method Restart()
      requires winLength == None || winLength == Some(WinLength)
      modifies this
      ensures Valid()
      ensures playerBody == InitialPlayerBody && aiBody == InitialAIBody
      ensures playerDir == Right && aiDir == Right && inputQueue == []
      ensures !isGameOver && !gameStarted && verdict == Pending
      ensures redApple.Some? && redApple != old(greenApple)
      ensures greenApple.Some? && FreeFor(greenApple.value, Green, None)
      ensures redApple.value !in playerBody && redApple.value !in aiBody
    {
      playerBody := InitialPlayerBody;
      playerDir := Right;
      aiBody := InitialAIBody;
      aiDir := Right;
      inputQueue := [];
      isGameOver := false;
      verdict := Pending;
      gameStarted := false;
      RoomForApple(Red, None);
      SpawnApple(Red, None);
      RoomForApple(Green, None);
      SpawnApple(Green, None);
    }
  }
}
