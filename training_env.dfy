/** The headless training environment of src/snake_env.py: two snake agents
    on a `cols` x `rows` torus. A step moves both heads first, checks
    collisions against the bodies with the new heads inserted, then lets the
    snakes eat (popping tails there) and finally decides the outcome. Unlike
    the browser games, bodies change even on a tick in which a snake dies. */
module TrainingEnv {
  import opened Wrappers
  import opened Grid
  import opened TickRules

  /** `win_length` of the environment. */
  const WinLength: int := 15

  /** The step `((hx + dx) % cols, (hy + dy) % rows)` of `move_snake`. Python's
      `%` with a positive divisor is the mathematical remainder, so the result
      is on the board and congruent to `head + d`. */
  function Wrapped(head: Cell, d: Dir, cols: int, rows: int): (r: Cell)
    requires cols > 0 && rows > 0
    ensures 0 <= r.x < cols && 0 <= r.y < rows
    ensures 0 <= head.x + d.dx < cols ==> r.x == head.x + d.dx
    ensures head.x + d.dx == cols ==> r.x == 0
    ensures head.x + d.dx == -1 ==> r.x == cols - 1
    ensures 0 <= head.y + d.dy < rows ==> r.y == head.y + d.dy
    ensures head.y + d.dy == rows ==> r.y == 0
    ensures head.y + d.dy == -1 ==> r.y == rows - 1
  {
    WrapStep(head.x + d.dx, cols);
    WrapStep(head.y + d.dy, rows);
    Cell((head.x + d.dx) % cols, (head.y + d.dy) % rows)
  }

  /** Python's remainder on one axis: on the board it is the identity, and one
      step past either edge comes back at the other. */
  lemma WrapStep(v: int, n: int)
    requires n > 0
    ensures 0 <= v % n < n
    ensures 0 <= v < n ==> v % n == v
    ensures v == n ==> v % n == 0
    ensures v == -1 ==> v % n == n - 1
  {
    if v == -1 {
      assert v == (-1) * n + (n - 1);
    }
  }

  /** On the 16 x 16 board the environment's step and the browser games'
      step agree. */
  lemma WrappedMatchesBrowser(head: Cell, d: Dir)
    requires InGrid(head) && IsUnit(d)
    ensures Wrapped(head, d, Cols, Rows) == JsNextHead(head, d)
  {
  }

  /** `check_collision` on a body whose new head is already inserted: the
      head lies on the rest of its own body or anywhere on the other one. */
  predicate Collides(body: seq<Cell>, other: seq<Cell>)
    requires |body| > 0
  {
    body[0] in body[1..] || body[0] in other
  }

  /** Checking collisions after the heads are inserted is the browser rule
      with no tail exemption: it is exactly the browser's marking when both
      snakes are taken to eat red. Head-on is a hit on the other's new head,
      a head swap a hit on the other's old head. */
  lemma CollidesIsGrowingRule(pBody: seq<Cell>, aBody: seq<Cell>, pp: Plan, ap: Plan)
    requires |pBody| > 0 && |aBody| > 0
    requires pp.head == pBody[0] && ap.head == aBody[0]
    requires pp.ateRed && ap.ateRed
    ensures Collides([pp.newHead] + pBody, [ap.newHead] + aBody) == PlayerDies(pBody, aBody, pp, ap)
    ensures Collides([ap.newHead] + aBody, [pp.newHead] + pBody) == AIDies(pBody, aBody, pp, ap)
  {
    assert ([pp.newHead] + pBody)[1..] == pBody;
    assert ([ap.newHead] + aBody)[1..] == aBody;
    forall cell, body | |body| > 0
      ensures cell in body <==> HitsBody(cell, body, false)
    {
      if cell in body {
        var i :| 0 <= i < |body| && body[i] == cell;
        assert HitsPrefix(cell, body, false, |body|);
      }
    }
    if HeadSwap(pp, ap) {
      assert pp.newHead == aBody[0] && ap.newHead == pBody[0];
    }
  }

  /** Whatever the snakes eat, a death in a browser game is a death in the
      environment: the environment never exempts a tail. */
  lemma BrowserDeathIsCollision(pBody: seq<Cell>, aBody: seq<Cell>, pp: Plan, ap: Plan)
    requires |pBody| > 0 && |aBody| > 0
    requires pp.head == pBody[0] && ap.head == aBody[0]
    ensures PlayerDies(pBody, aBody, pp, ap) ==> Collides([pp.newHead] + pBody, [ap.newHead] + aBody)
    ensures AIDies(pBody, aBody, pp, ap) ==> Collides([ap.newHead] + aBody, [pp.newHead] + pBody)
  {
    var gp, ga := pp.(ateRed := true), ap.(ateRed := true);
    CollidesIsGrowingRule(pBody, aBody, gp, ga);
    forall cell, body, vacates | HitsBody(cell, body, vacates)
      ensures HitsBody(cell, body, false)
    {
      var i :| 0 <= i < |body| && !(vacates && i == |body| - 1) && body[i] == cell;
      assert !(false && i == |body| - 1);
    }
  }

  /** Which apple each snake eats in `handle_apples`, judged on the bodies with
      the new heads inserted. */
  datatype Meals = Meals(playerRed: bool, aiRed: bool, playerGreen: bool, aiGreen: bool)

  /** The player is served first. A respawned apple avoids both bodies, so
      the AI eats an apple only if it is where it was and the player did not
      take it. */
  function MealsFor(p: seq<Cell>, a: seq<Cell>, red: Option<Cell>, green: Option<Cell>): (m: Meals)
    requires |p| > 0 && |a| > 0
    ensures m.playerRed <==> red == Some(p[0])
    ensures m.playerGreen <==> green == Some(p[0])
    ensures m.aiRed <==> !m.playerRed && red == Some(a[0])
    ensures m.aiGreen <==> !m.playerGreen && green == Some(a[0])
    ensures p[0] == a[0] ==> !m.aiRed && !m.aiGreen
  {
    var playerRed := red == Some(p[0]);
    var playerGreen := green == Some(p[0]);
    Meals(playerRed, !playerRed && red == Some(a[0]), playerGreen, !playerGreen && green == Some(a[0]))
  }

  /** `body.pop()`. */
  function Popped(body: seq<Cell>): (r: seq<Cell>)
    requires |body| > 0
  {
    body[..|body| - 1]
  }

  /** The bodies `handle_apples` leaves: a snake that does not eat red loses
      its tail, then a green apple pops the opponent's tail unless the
      opponent is down to one segment. */
  function AfterApples(p: seq<Cell>, a: seq<Cell>, m: Meals): (r: Bodies)
    requires |p| >= 2 && |a| >= 2
    ensures |r.player| >= 1 && |r.ai| >= 1
    ensures r.player <= p && r.ai <= a
    ensures r.player[0] == p[0] && r.ai[0] == a[0]
  {
    var p1 := if m.playerRed then p else Popped(p);
    var a1 := if m.aiRed then a else Popped(a);
    var a2 := if m.playerGreen && |a1| > 1 then Popped(a1) else a1;
    var p2 := if m.aiGreen && |p1| > 1 then Popped(p1) else p1;
    Bodies(p2, a2)
  }

  /** Over a whole step (insert, then `handle_apples`) a snake grows by one on
      red, keeps its length otherwise, and loses one more when the opponent
      eats green while it is longer than one segment. */
  lemma {:induction false} StepLengths(pBody: seq<Cell>, aBody: seq<Cell>, newP: Cell, newA: Cell, m: Meals)
    requires |pBody| >= 1 && |aBody| >= 1
    ensures var r := AfterApples([newP] + pBody, [newA] + aBody, m);
            var pGrown := |pBody| + (if m.playerRed then 1 else 0);
            var aGrown := |aBody| + (if m.aiRed then 1 else 0);
            && |r.player| == (if m.aiGreen && pGrown > 1 then pGrown - 1 else pGrown)
            && |r.ai| == (if m.playerGreen && aGrown > 1 then aGrown - 1 else aGrown)
  {
  }

  /** The winner `step` records, `Pending` standing for `None`: deaths first,
      then, only if nobody died, the win length, the player checked first. */
  function Outcome(playerDied: bool, aiDied: bool, playerLen: int, aiLen: int, winLength: int): (v: Verdict)
    ensures playerDied || aiDied ==> v == DeathVerdict(playerDied, aiDied)
    ensures !playerDied && !aiDied ==>
              && (v == PlayerWins <==> playerLen >= winLength)
              && (v == AIWins <==> playerLen < winLength && aiLen >= winLength)
              && v != Draw
  {
    var deaths :=
      if playerDied && aiDied then Draw
      else if playerDied then AIWins
      else if aiDied then PlayerWins
      else Pending;
    if playerLen >= winLength && deaths == Pending then PlayerWins
    else if aiLen >= winLength && deaths == Pending then AIWins
    else deaths
  }

  /** Where the environment and `src/script.js` part ways on lengths: both
      snakes at the win length is a player win here and a draw there, and a
      one-segment snake does not end the episode here. */
  lemma OutcomeDiffersFromBrowser(playerLen: int, aiLen: int)
    requires playerLen >= WinLength && aiLen >= WinLength
    ensures Outcome(false, false, playerLen, aiLen, WinLength) == PlayerWins
    ensures EndVerdict(playerLen, aiLen, Some(WinLength)) == Draw
    ensures Outcome(false, false, 1, WinLength - 1, WinLength) == Pending
    ensures EndVerdict(1, WinLength - 1, Some(WinLength)) == AIWins
  {
  }

  /** `compute_reward`. */
  function Reward(winner: Verdict): (r: int)
    ensures r == 1 <==> winner == PlayerWins
    ensures r == -1 <==> winner == AIWins
    ensures r == 0 <==> winner.Draw? || winner.Pending?
  {
    if winner == PlayerWins then 1
    else if winner == AIWins then -1
    else 0
  }

  /** The reward is zero-sum: exchanging the two snakes negates it. */
  lemma RewardMirrored(winner: Verdict)
    ensures Reward(winner.Mirror()) == -Reward(winner)
  {
    match winner
    case Pending =>
    case Draw =>
    case AIWins =>
    case PlayerWins =>
  }

  /** `SnakeAgent`: a body, head first, and a direction. */
  class SnakeAgent {
    var body: seq<Cell>
    var direction: Dir
    const isAI: bool

    /** `body[:]` copies a Python list; a sequence is a value already. */
    constructor (body: seq<Cell>, direction: Dir, isAI: bool)
      ensures this.body == body && this.direction == direction && this.isAI == isAI
    {
      this.body := body;
      this.direction := direction;
      this.isAI := isAI;
    }

    /** `copy`: a new agent with the same body, direction and role. */
    method Copy() returns (r: SnakeAgent)
      ensures fresh(r)
      ensures r.body == body && r.direction == direction && r.isAI == isAI
    {
      r := new SnakeAgent(body, direction, isAI);
    }
  }

  class SnakeEnv {
    const cols: int
    const rows: int
    const winLength: int
    var done: bool
    /** `winner`, `Pending` standing for `None`. */
    var winner: Verdict
    var player: SnakeAgent
    var ai: SnakeAgent
    var redApple: Option<Cell>
    var greenApple: Option<Cell>

    ghost predicate Valid()
      reads this, player, ai
    {
      && winLength == WinLength
      && player != ai && !player.isAI && ai.isAI
      && |player.body| >= 1 && |ai.body| >= 1
      && (done <==> winner != Pending)
    }

    /** `inside_bounds`. */
    predicate InBounds(c: Cell) {
      0 <= c.x < cols && 0 <= c.y < rows
    }

    /** A cell `spawn_apple(exclude)` may return: on the board, on neither
        body, not excluded. */
    ghost predicate Free(c: Cell, exclude: seq<Option<Cell>>)
      reads this`player, this`ai, player`body, ai`body
    {
      InBounds(c) && c !in player.body && c !in ai.body && Some(c) !in exclude
    }

    /** An apple placed by `spawn_apple(exclude)` in the current state. */
    ghost predicate Spawned(apple: Option<Cell>, exclude: seq<Option<Cell>>)
      reads this`player, this`ai, player`body, ai`body
    {
      && (apple.Some? ==> Free(apple.value, exclude))
      && (apple.None? ==> forall c :: !Free(c, exclude))
    }

    /** `SnakeEnv(cols, rows)`: the environment after `reset`. Seeding the
        random generator is not modelled. */
    constructor (cols: int, rows: int)
      ensures Valid()
      ensures this.cols == cols && this.rows == rows && winLength == WinLength
      ensures player.body == InitialPlayerBody && ai.body == InitialAIBody
      ensures player.direction == Right && ai.direction == Right
      ensures !done && winner == Pending
      ensures Spawned(redApple, []) && Spawned(greenApple, [redApple])
    {
      this.cols := cols;
      this.rows := rows;
      winLength := WinLength;
      done := false;
      winner := Pending;
      player := new SnakeAgent(InitialPlayerBody, Right, false);
      ai := new SnakeAgent(InitialAIBody, Right, true);
      redApple, greenApple := None, None;
      new;
      Reset();
    }

    /** `reset`: fresh agents at the fixed initial layout heading right, no
        winner, a red apple anywhere free and a green apple away from it. */
    method Reset()
      requires winLength == WinLength
      modifies this
      ensures fresh(player) && fresh(ai)
      ensures Valid()
      ensures player.body == InitialPlayerBody && ai.body == InitialAIBody
      ensures player.direction == Right && ai.direction == Right
      ensures !done && winner == Pending
      ensures Spawned(redApple, []) && Spawned(greenApple, [redApple])
    {
      done := false;
      winner := Pending;
      player := new SnakeAgent(InitialPlayerBody, Right, false);
      ai := new SnakeAgent(InitialAIBody, Right, true);
      var red := SpawnApple([]);
      redApple := red;
      var green := SpawnApple([red]);
      greenApple := green;
    }

    /** `spawn_apple(exclude)`: the list of free cells, column by column, and a
        choice among them; `None` exactly when there is none. */
    method SpawnApple(exclude: seq<Option<Cell>>) returns (r: Option<Cell>)
      ensures Spawned(r, exclude)
    {
      var occupied := player.body + ai.body;
      var available: seq<Cell> := [];
      var x := 0;
      while x < cols
        invariant 0 <= x
        invariant forall c :: c in available <==> Free(c, exclude) && c.x < x
      {
        var y := 0;
        while y < rows
          invariant 0 <= y
          invariant forall c :: c in available <==> Free(c, exclude) && (c.x < x || (c.x == x && c.y < y))
        {
          var c := Cell(x, y);
          if c !in occupied && Some(c) !in exclude {
            available := available + [c];
          }
          y := y + 1;
        }
        x := x + 1;
      }
      if |available| > 0 {
        var i :| 0 <= i < |available|;
        r := Some(available[i]);
      } else {
        r := None;
        forall c ensures !Free(c, exclude) {
          assert c !in available;
        }
      }
    }

    /** `move_snake`: insert the wrapped next head in front; nothing once the
        episode is done. */
    method MoveSnake(snake: SnakeAgent)
      requires cols > 0 && rows > 0 && |snake.body| > 0
      modifies snake`body
      ensures old(done) ==> snake.body == old(snake.body)
      ensures !old(done) ==>
                snake.body == [Wrapped(old(snake.body)[0], snake.direction, cols, rows)] + old(snake.body)
    {
      if done {
        return;
      }
      var d := snake.direction;
      var head := snake.body[0];
      var newX := (head.x + d.dx) % cols;
      var newY := (head.y + d.dy) % rows;
      snake.body := [Cell(newX, newY)] + snake.body;
    }

    /** `check_collision`: the other snake is chosen by `is_ai`. */
    method CheckCollision(snake: SnakeAgent) returns (b: bool)
      requires Valid() && (snake == player || snake == ai)
      ensures snake == player ==> b == Collides(player.body, ai.body)
      ensures snake == ai ==> b == Collides(ai.body, player.body)
    {
      if snake.body[0] in snake.body[1..] {
        return true;
      }
      var other := if !snake.isAI then ai else player;
      if snake.body[0] in other.body {
        return true;
      }
      return false;
    }

    /** The apples after `handle_apples` with meals `m`: an apple nobody ate
        stays; an eaten one is respawned off both final bodies (or is gone
        when the board was full), and a respawned green apple avoids red. */
    ghost predicate ApplesHandled(m: Meals, red: Option<Cell>, green: Option<Cell>)
      reads this, player, ai
    {
      && (!m.playerRed && !m.aiRed ==> redApple == red)
      && (m.playerRed || m.aiRed ==> redApple.Some? ==> Free(redApple.value, []))
      && (!m.playerGreen && !m.aiGreen ==> greenApple == green)
      && (m.playerGreen || m.aiGreen ==> greenApple.Some? ==> Free(greenApple.value, [redApple]))
    }

    /** `handle_apples`, on bodies whose new heads are inserted. */
    method HandleApples()
      requires player != ai
      requires |player.body| >= 2 && |ai.body| >= 2
      modifies player`body, ai`body, this`redApple, this`greenApple
      ensures var m := MealsFor(old(player.body), old(ai.body), old(redApple), old(greenApple));
              var r := AfterApples(old(player.body), old(ai.body), m);
              && player.body == r.player && ai.body == r.ai
              && ApplesHandled(m, old(redApple), old(greenApple))
    {
      ghost var p, a := player.body, ai.body;
      ghost var m := MealsFor(p, a, redApple, greenApple);
      // red apple: growth
      if Some(player.body[0]) == redApple {
        redApple := SpawnApple([]);
      } else {
        player.body := Popped(player.body);
      }
      if Some(ai.body[0]) == redApple {
        redApple := SpawnApple([]);
      } else {
        ai.body := Popped(ai.body);
      }
      ghost var p1, a1 := player.body, ai.body;
      assert m.playerRed || m.aiRed ==> redApple.Some? ==> Free(redApple.value, []);
      // green apple: shrink the opponent
      if Some(player.body[0]) == greenApple {
        if |ai.body| > 1 {
          ai.body := Popped(ai.body);
        }
        greenApple := SpawnApple([redApple]);
      }
      if Some(ai.body[0]) == greenApple {
        if |player.body| > 1 {
          player.body := Popped(player.body);
        }
        greenApple := SpawnApple([redApple]);
      }
      assert player.body <= p1 && ai.body <= a1;
      forall c | c in player.body ensures c in p1 {
        InPrefix(player.body, p1, c);
      }
      forall c | c in ai.body ensures c in a1 {
        InPrefix(ai.body, a1, c);
      }
    }

    /** The outcome part of `step`: deaths first, then the win length, the
        player checked first. */
    method Decide(playerDied: bool, aiDied: bool)
      requires !done && winner == Pending
      modifies this`done, this`winner
      ensures winner == Outcome(playerDied, aiDied, |player.body|, |ai.body|, winLength)
      ensures done <==> winner != Pending
    {
      if playerDied && aiDied {
        done := true;
        winner := Draw;
      } else if playerDied {
        done := true;
        winner := AIWins;
      } else if aiDied {
        done := true;
        winner := PlayerWins;
      }
      if |player.body| >= winLength && !done {
        done := true;
        winner := PlayerWins;
      } else if |ai.body| >= winLength && !done {
        done := true;
        winner := AIWins;
      }
    }

    /** What `step(playerDir, aiDir)` does to a running episode whose bodies
        and apples were `p0`, `a0`, `red`, `green`. */
    ghost predicate Stepped(p0: seq<Cell>, a0: seq<Cell>, red: Option<Cell>, green: Option<Cell>,
                            playerDir: Dir, aiDir: Dir)
      requires cols > 0 && rows > 0 && |p0| > 0 && |a0| > 0
      reads this, player, ai
    {
      var p := [Wrapped(p0[0], playerDir, cols, rows)] + p0;
      var a := [Wrapped(a0[0], aiDir, cols, rows)] + a0;
      var m := MealsFor(p, a, red, green);
      var r := AfterApples(p, a, m);
      && player.direction == playerDir && ai.direction == aiDir
      && player.body == r.player && ai.body == r.ai
      && ApplesHandled(m, red, green)
      && winner == Outcome(Collides(p, a), Collides(a, p), |r.player|, |r.ai|, winLength)
    }

    /** `step(player_dir, ai_dir)`, returning the reward and `done`; the
        observation and the info dictionary are left out. */
    method Step(playerDir: Dir, aiDir: Dir) returns (reward: int, isDone: bool)
      requires Valid() && cols > 0 && rows > 0
      modifies this, player, ai
      ensures Valid()
      ensures player == old(player) && ai == old(ai)
      ensures old(done) ==> reward == 0 && isDone && unchanged(this, player, ai)
      ensures !old(done) ==>
                && Stepped(old(player.body), old(ai.body), old(redApple), old(greenApple), playerDir, aiDir)
                && reward == Reward(winner) && isDone == done
    {
      if done {
        return 0, true;
      }
      player.direction := playerDir;
      ai.direction := aiDir;
      MoveSnake(player);
      MoveSnake(ai);
      var playerDied := CheckCollision(player);
      var aiDied := CheckCollision(ai);
      HandleApples();
      Decide(playerDied, aiDied);
      reward := Reward(winner);
      isDone := done;
    }
  }
}
