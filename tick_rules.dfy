/** The rules of one tick of the browser games (`update` in src/script.js and
    script.js), as functions on values: each snake's plan, the collision
    marking, the bodies after a tick nobody dies in, and the verdicts. The
    game class applies these rules to its state in place. */
module TickRules {
  import opened Wrappers
  import opened Grid

  datatype Side = Player | AI {
    function Opponent(): (s: Side)
      ensures s != this
    {
      if Player? then AI else Player
    }
  }

  /** The message of `gameOver`, or `Pending` while the game runs:
      "Draw - No KObra", "AI is the KObra", "Player is the KObra". */
  datatype Verdict = Pending | Draw | AIWins | PlayerWins {
    /** The same verdict with the two snakes' roles exchanged. */
    function Mirror(): (v: Verdict) {
      match this
      case Pending => Pending
      case Draw => Draw
      case AIWins => PlayerWins
      case PlayerWins => AIWins
    }
  }

  /** One entry of `plans`: the current head, the next head, and which apple
      the next head lands on (`willGrow` is `ateRed`). */
  datatype Plan = Plan(head: Cell, newHead: Cell, ateRed: bool, ateGreen: bool)

  /** The plan of a snake with body `body` moving in `dir`. */
  function PlanFor(body: seq<Cell>, dir: Dir, red: Option<Cell>, green: Option<Cell>): (p: Plan)
    requires |body| > 0
    ensures p.head == body[0]
    ensures p.newHead == JsNextHead(body[0], dir)
    ensures AllInGrid(body) && IsUnit(dir) ==> InGrid(p.newHead) && p.newHead != p.head
    ensures p.ateRed <==> red == Some(p.newHead)
    ensures p.ateGreen <==> green == Some(p.newHead)
  {
    var newHead := JsNextHead(body[0], dir);
    Plan(body[0], newHead, red == Some(newHead), green == Some(newHead))
  }

  // ---------------------------------------------------------------------
  // Collision marking

  /** Some segment among the first `n` of `body` lies on `cell`, the last
      segment not counting when the owner `vacates` it this tick. */
  predicate HitsPrefix(cell: Cell, body: seq<Cell>, vacates: bool, n: int)
    requires n <= |body|
  {
    exists idx :: 0 <= idx < n && !(vacates && idx == |body| - 1) && body[idx] == cell
  }

  predicate HitsBody(cell: Cell, body: seq<Cell>, vacates: bool) {
    HitsPrefix(cell, body, vacates, |body|)
  }

  /** The mover's next head lies on a segment of either snake; the tail of a
      snake that does not eat red this tick is skipped, whoever moves. */
  predicate BodyHit(mover: Plan, pBody: seq<Cell>, aBody: seq<Cell>, pp: Plan, ap: Plan) {
    HitsBody(mover.newHead, pBody, !pp.ateRed) || HitsBody(mover.newHead, aBody, !ap.ateRed)
  }

  predicate HeadOn(pp: Plan, ap: Plan) {
    pp.newHead == ap.newHead
  }

  predicate HeadSwap(pp: Plan, ap: Plan) {
    pp.newHead == ap.head && ap.newHead == pp.head
  }

  predicate PlayerDies(pBody: seq<Cell>, aBody: seq<Cell>, pp: Plan, ap: Plan) {
    BodyHit(pp, pBody, aBody, pp, ap) || HeadOn(pp, ap) || HeadSwap(pp, ap)
  }

  predicate AIDies(pBody: seq<Cell>, aBody: seq<Cell>, pp: Plan, ap: Plan) {
    BodyHit(ap, pBody, aBody, pp, ap) || HeadOn(pp, ap) || HeadSwap(pp, ap)
  }

  /** The collision loops of `update`: for each plan, for each snake, for each
      segment, mark the plan dead on a hit, skipping the tail of a snake that
      does not grow; then the head-on and head-swap tests mark both. */
  method DetectCollisions(pBody: seq<Cell>, aBody: seq<Cell>, pp: Plan, ap: Plan)
    returns (playerDied: bool, aiDied: bool)
    ensures playerDied == PlayerDies(pBody, aBody, pp, ap)
    ensures aiDied == AIDies(pBody, aBody, pp, ap)
  {
    var plans := [pp, ap];
    var bodies := [pBody, aBody];
    var died := [false, false];
    for m := 0 to 2
      invariant |died| == 2
      invariant forall k :: 0 <= k < m ==> died[k] == BodyHit(plans[k], pBody, aBody, pp, ap)
      invariant forall k :: m <= k < 2 ==> !died[k]
    {
      for s := 0 to 2
        invariant |died| == 2
        invariant forall k :: 0 <= k < m ==> died[k] == BodyHit(plans[k], pBody, aBody, pp, ap)
        invariant forall k :: m < k < 2 ==> !died[k]
        invariant died[m] == exists t :: 0 <= t < s && HitsBody(plans[m].newHead, bodies[t], !plans[t].ateRed)
      {
        ghost var before := died;
        for idx := 0 to |bodies[s]|
          invariant |died| == 2
          invariant forall k :: 0 <= k < 2 && k != m ==> died[k] == before[k]
          invariant died[m] == (before[m] || HitsPrefix(plans[m].newHead, bodies[s], !plans[s].ateRed, idx))
        {
          var isTail := idx == |bodies[s]| - 1;
          if isTail && !plans[s].ateRed {
            // the tail leaves this tick
          } else if bodies[s][idx] == plans[m].newHead {
            died := died[m := true];
          }
        }
      }
      assert bodies[0] == pBody && bodies[1] == aBody && plans[0] == pp && plans[1] == ap;
      assert died[m] == BodyHit(plans[m], pBody, aBody, pp, ap) by {
        if HitsBody(plans[m].newHead, pBody, !pp.ateRed) {
          assert HitsBody(plans[m].newHead, bodies[0], !plans[0].ateRed);
        }
        if HitsBody(plans[m].newHead, aBody, !ap.ateRed) {
          assert HitsBody(plans[m].newHead, bodies[1], !plans[1].ateRed);
        }
      }
    }
    if pp.newHead == ap.newHead {
      died := [true, true];
    }
    if pp.newHead == ap.head && ap.newHead == pp.head {
      died := [true, true];
    }
    playerDied, aiDied := died[0], died[1];
  }

  /** Collision marking treats the two snakes alike: exchanging them
      exchanges the marks. */
  lemma DiesSymmetric(pBody: seq<Cell>, aBody: seq<Cell>, pp: Plan, ap: Plan)
    ensures PlayerDies(pBody, aBody, pp, ap) == AIDies(aBody, pBody, ap, pp)
  {
  }

  /** Moving onto the cell a non-growing snake vacates is not a body hit on
      that snake, for its owner and for the other snake alike. */
  lemma VacatedTailIsSafe(cell: Cell, body: seq<Cell>)
    requires NoDup(body) && |body| > 0 && cell == body[|body| - 1]
    ensures !HitsBody(cell, body, true)
    ensures HitsBody(cell, body, false)
  {
  }

  // ---------------------------------------------------------------------
  // The bodies after a tick in which nobody dies

  /** `body.unshift(newHead)`, then `body.pop()` unless the snake eats red. */
  function Advance(body: seq<Cell>, p: Plan): (r: seq<Cell>)
    requires |body| > 0
    ensures |r| == |body| + (if p.ateRed then 1 else 0)
    ensures r[0] == p.newHead
    ensures r[1..] == if p.ateRed then body else body[..|body| - 1]
  {
    [p.newHead] + (if p.ateRed then body else body[..|body| - 1])
  }

  /** The green effect on the opponent: its tail is popped when it is longer
      than one segment. */
  function Shrunk(body: seq<Cell>): (r: seq<Cell>)
    ensures |r| == if |body| > 1 then |body| - 1 else |body|
    ensures r <= body
  {
    if |body| > 1 then body[..|body| - 1] else body
  }

  datatype Bodies = Bodies(player: seq<Cell>, ai: seq<Cell>)

  /** The "apply moves" loop, player first: the player advances and, on
      green, shrinks the AI; then the AI advances and, on green, shrinks the
      player. */
  function Moved(pBody: seq<Cell>, aBody: seq<Cell>, pp: Plan, ap: Plan): (r: Bodies)
    requires |pBody| > 0 && |aBody| > 0
    ensures |r.player| > 0 && |r.ai| > 0
    ensures r.player[0] == pp.newHead && r.ai[0] == ap.newHead
    ensures r.player <= Advance(pBody, pp)
    ensures r.ai[1..] <= Kept(aBody, ap)
  {
    var p1 := Advance(pBody, pp);
    var a1 := if pp.ateGreen then Shrunk(aBody) else aBody;
    var a2 := Advance(a1, ap);
    var p2 := if ap.ateGreen then Shrunk(p1) else p1;
    Bodies(p2, a2)
  }

  /** While both snakes have two segments or more, a snake's length after a
      tick is its length plus one on red, minus one when the other snake eats
      green. */
  lemma MovedLengths(pBody: seq<Cell>, aBody: seq<Cell>, pp: Plan, ap: Plan)
    requires |pBody| >= 2 && |aBody| >= 2
    ensures |Moved(pBody, aBody, pp, ap).player|
              == |pBody| + (if pp.ateRed then 1 else 0) - (if ap.ateGreen then 1 else 0)
    ensures |Moved(pBody, aBody, pp, ap).ai|
              == |aBody| + (if ap.ateRed then 1 else 0) - (if pp.ateGreen then 1 else 0)
  {
  }

  /** Popping the tail commutes with a move on a body of two segments or more. */
  lemma ShrunkAdvanceCommute(body: seq<Cell>, p: Plan)
    requires |body| >= 2
    ensures Shrunk(Advance(body, p)) == Advance(Shrunk(body), p)
  {
    var n := |body|;
    if p.ateRed {
      assert Shrunk(Advance(body, p)) == [p.newHead] + body[..n - 1];
    } else {
      assert Shrunk(Advance(body, p)) == [p.newHead] + body[..n - 2];
      assert Advance(Shrunk(body), p) == [p.newHead] + body[..n - 1][..n - 2];
    }
  }

  /** The order of the "apply moves" loop does not matter while both snakes
      have two segments or more: running it AI first gives the same bodies. */
  lemma MovedOrderIrrelevant(pBody: seq<Cell>, aBody: seq<Cell>, pp: Plan, ap: Plan)
    requires |pBody| >= 2 && |aBody| >= 2
    ensures Moved(aBody, pBody, ap, pp)
              == Bodies(Moved(pBody, aBody, pp, ap).ai, Moved(pBody, aBody, pp, ap).player)
  {
    ShrunkAdvanceCommute(pBody, pp);
    ShrunkAdvanceCommute(aBody, ap);
  }

  /** A tick keeps every segment on the board. */
  lemma MovedInGrid(pBody: seq<Cell>, aBody: seq<Cell>, pp: Plan, ap: Plan)
    requires |pBody| > 0 && |aBody| > 0
    requires AllInGrid(pBody) && AllInGrid(aBody) && InGrid(pp.newHead) && InGrid(ap.newHead)
    ensures AllInGrid(Moved(pBody, aBody, pp, ap).player) && AllInGrid(Moved(pBody, aBody, pp, ap).ai)
  {
    var r := Moved(pBody, aBody, pp, ap);
    forall c | c in r.player ensures InGrid(c) {
      InPrefix(r.player, Advance(pBody, pp), c);
      if c != pp.newHead {
        InPrefix(Kept(pBody, pp), pBody, c);
      }
    }
    forall c | c in r.ai ensures InGrid(c) {
      if c != ap.newHead {
        assert c in r.ai[1..];
        InPrefix(r.ai[1..], Kept(aBody, ap), c);
        InPrefix(Kept(aBody, ap), aBody, c);
      }
    }
  }

  /** An apple put back after being eaten: on the board, off the eater's body,
      and off every segment of the other snake except perhaps its new head. */
  ghost predicate Respawned(apple: Option<Cell>, eater: seq<Cell>, other: seq<Cell>) {
    && apple.Some?
    && InGrid(apple.value)
    && apple.value !in eater
    && forall i :: 1 <= i < |other| ==> other[i] != apple.value
  }

  /** Each body free of repeated cells, and no cell in both bodies. */
  ghost predicate Separated(pBody: seq<Cell>, aBody: seq<Cell>) {
    NoDup(pBody) && NoDup(aBody) && forall c :: c in pBody ==> c !in aBody
  }

  /** The segments a snake keeps after its move, apart from its new head. */
  function Kept(body: seq<Cell>, p: Plan): (r: seq<Cell>)
    requires |body| > 0
  {
    if p.ateRed then body else body[..|body| - 1]
  }

  /** A body hit is a cell among those the owner keeps in place this tick. */
  lemma HitsBodyKept(cell: Cell, body: seq<Cell>, vacates: bool)
    requires |body| > 0
    ensures HitsBody(cell, body, vacates) <==> cell in (if vacates then body[..|body| - 1] else body)
  {
    var kept := if vacates then body[..|body| - 1] else body;
    if cell in kept {
      var i :| 0 <= i < |kept| && kept[i] == cell;
      assert body[i] == cell;
    }
  }

  lemma NoDupCons(x: Cell, s: seq<Cell>)
    requires NoDup(s) && x !in s
    ensures NoDup([x] + s)
  {
    forall i, j | 0 <= i < j < |[x] + s| ensures ([x] + s)[i] != ([x] + s)[j] {
      if i == 0 {
        assert ([x] + s)[j] == s[j - 1];
      } else {
        assert ([x] + s)[i] == s[i - 1] && ([x] + s)[j] == s[j - 1];
      }
    }
  }

  lemma InPrefix(s: seq<Cell>, t: seq<Cell>, c: Cell)
    requires s <= t
    ensures c in s ==> c in t
  {
    if c in s {
      var i :| 0 <= i < |s| && s[i] == c;
      assert t[i] == c;
    }
  }

  lemma NoDupPrefix(s: seq<Cell>, t: seq<Cell>)
    requires s <= t && NoDup(t)
    ensures NoDup(s)
  {
    forall i, j | 0 <= i < j < |s| ensures s[i] != s[j] {
      assert s[i] == t[i] && s[j] == t[j];
    }
  }

  /** A move keeps the snake's own cells distinct when its next head is not a
      body hit on itself; the result is the new head before the kept cells. */
  lemma AdvanceNoDup(body: seq<Cell>, p: Plan)
    requires |body| > 0 && NoDup(body) && !HitsBody(p.newHead, body, !p.ateRed)
    ensures Advance(body, p) == [p.newHead] + Kept(body, p)
    ensures NoDup(Advance(body, p))
  {
    HitsBodyKept(p.newHead, body, !p.ateRed);
    NoDupPrefix(Kept(body, p), body);
    NoDupCons(p.newHead, Kept(body, p));
  }

  /** A tick in which nobody dies keeps the two snakes separated: no body
      repeats a cell and no cell belongs to both. */
  lemma {:induction false} MovedKeepsSeparated(pBody: seq<Cell>, aBody: seq<Cell>, pp: Plan, ap: Plan)
    requires |pBody| > 0 && |aBody| > 0 && Separated(pBody, aBody)
    requires !PlayerDies(pBody, aBody, pp, ap) && !AIDies(pBody, aBody, pp, ap)
    ensures Separated(Moved(pBody, aBody, pp, ap).player, Moved(pBody, aBody, pp, ap).ai)
  {
    var r := Moved(pBody, aBody, pp, ap);
    var pKept, aKept := Kept(pBody, pp), Kept(aBody, ap);
    HitsBodyKept(pp.newHead, pBody, !pp.ateRed);
    HitsBodyKept(pp.newHead, aBody, !ap.ateRed);
    HitsBodyKept(ap.newHead, pBody, !pp.ateRed);
    HitsBodyKept(ap.newHead, aBody, !ap.ateRed);
    // every cell after the tick is a new head or a kept cell
    var p1 := Advance(pBody, pp);
    AdvanceNoDup(pBody, pp);
    assert r.player <= p1;
    NoDupPrefix(r.player, p1);
    var a1 := if pp.ateGreen then Shrunk(aBody) else aBody;
    assert a1 <= aBody;
    NoDupPrefix(a1, aBody);
    assert Kept(a1, ap) <= aKept;
    assert !HitsBody(ap.newHead, a1, !ap.ateRed) by {
      InPrefix(Kept(a1, ap), aKept, ap.newHead);
      HitsBodyKept(ap.newHead, a1, !ap.ateRed);
    }
    AdvanceNoDup(a1, ap);
    assert r.ai == [ap.newHead] + Kept(a1, ap);
    forall c | c in r.player ensures c !in r.ai {
      assert c in p1;
      InPrefix(Kept(a1, ap), aKept, c);
      if c == pp.newHead {
        assert c != ap.newHead && c !in aKept;
      } else {
        assert c in pKept && c in pBody;
        assert c !in aBody && c != ap.newHead;
        InPrefix(aKept, aBody, c);
      }
    }
  }

  // ---------------------------------------------------------------------
  // Verdicts

  /** The message chosen when a snake is marked dead. */
  function DeathVerdict(playerDied: bool, aiDied: bool): (v: Verdict)
    requires playerDied || aiDied
    ensures v != Pending
    ensures v == Draw <==> playerDied && aiDied
    ensures v == AIWins <==> playerDied && !aiDied
    ensures v == PlayerWins <==> aiDied && !playerDied
  {
    if playerDied && aiDied then Draw
    else if playerDied then AIWins
    else PlayerWins
  }

  /** The length-1 loss check after the moves: both at one segment or less is a
      draw, otherwise the short snake loses. */
  function ShortVerdict(playerLen: int, aiLen: int): (v: Verdict)
    ensures v == Pending <==> playerLen > 1 && aiLen > 1
    ensures v == Draw <==> playerLen <= 1 && aiLen <= 1
    ensures v == AIWins <==> playerLen <= 1 && aiLen > 1
    ensures v == PlayerWins <==> aiLen <= 1 && playerLen > 1
  {
    if playerLen <= 1 && aiLen <= 1 then Draw
    else if playerLen <= 1 then AIWins
    else if aiLen <= 1 then PlayerWins
    else Pending
  }

  /** The win-by-length check of src/script.js, reached only when the length-1
      check passed: both at `winLength` or more is a draw, otherwise the long
      snake wins. */
  function LongVerdict(playerLen: int, aiLen: int, winLength: int): (v: Verdict)
    ensures v == Pending <==> playerLen < winLength && aiLen < winLength
    ensures v == Draw <==> playerLen >= winLength && aiLen >= winLength
    ensures v == PlayerWins <==> playerLen >= winLength && aiLen < winLength
    ensures v == AIWins <==> aiLen >= winLength && playerLen < winLength
  {
    if playerLen >= winLength || aiLen >= winLength then
      if playerLen >= winLength && aiLen >= winLength then Draw
      else if playerLen >= winLength then PlayerWins
      else AIWins
    else Pending
  }

  /** The end checks after the moves, in order: the length-1 check, then, in
      src/script.js where `WIN_LENGTH` exists, the win-by-length check. The
      game of script.js has no winning length (`None`). */
  function EndVerdict(playerLen: int, aiLen: int, winLength: Option<int>): (v: Verdict)
    ensures v == Pending <==>
              && 1 < playerLen && 1 < aiLen
              && (winLength.Some? ==> playerLen < winLength.value && aiLen < winLength.value)
    ensures winLength.None? ==> (v == Draw <==> playerLen <= 1 && aiLen <= 1)
    ensures ShortVerdict(playerLen, aiLen) != Pending ==> v == ShortVerdict(playerLen, aiLen)
    ensures winLength.Some? && ShortVerdict(playerLen, aiLen) == Pending ==>
              v == LongVerdict(playerLen, aiLen, winLength.value)
  {
    var short := ShortVerdict(playerLen, aiLen);
    if short != Pending || winLength.None? then short else LongVerdict(playerLen, aiLen, winLength.value)
  }

  /** The end checks are fair: exchanging the two snakes mirrors the verdict. */
  lemma VerdictsSymmetric(playerDied: bool, aiDied: bool, playerLen: int, aiLen: int, winLength: Option<int>)
    ensures (playerDied || aiDied) ==>
              DeathVerdict(aiDied, playerDied) == DeathVerdict(playerDied, aiDied).Mirror()
    ensures ShortVerdict(aiLen, playerLen) == ShortVerdict(playerLen, aiLen).Mirror()
    ensures EndVerdict(aiLen, playerLen, winLength) == EndVerdict(playerLen, aiLen, winLength).Mirror()
  {
  }

  /** The length-1 check takes precedence: a one-segment snake loses even when
      the other has reached the winning length. */
  lemma ShortBeatsLong(playerLen: int, aiLen: int, winLength: int)
    requires playerLen <= 1 && aiLen >= winLength && aiLen > 1
    ensures EndVerdict(playerLen, aiLen, Some(winLength)) == AIWins
  {
  }

  /** Without a win length (script.js) only the length-1 check ends a game:
      no length, however long, wins. */
  lemma EndWithoutWinLength(playerLen: int, aiLen: int)
    ensures EndVerdict(playerLen, aiLen, None) == ShortVerdict(playerLen, aiLen)
    ensures 1 < playerLen && 1 < aiLen ==> EndVerdict(playerLen, aiLen, None) == Pending
  {
  }
}
