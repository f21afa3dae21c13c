/** The player's input buffer of the browser games: the enqueue test of the
    key handler and the one-entry consumption at the start of a tick, as
    functions on the queue, together with the invariant the two keep. */
module InputQueue {
  import opened Grid

  /** The direction a new key is compared with: the last queued one, or the
      current direction when nothing is queued. */
  function LastPending(q: seq<Dir>, current: Dir): (d: Dir) {
    if |q| > 0 then q[|q| - 1] else current
  }

  /** The queue after a key press for `d`: appended unless it reverses the
      pending direction or is already queued. */
  function Enqueued(q: seq<Dir>, current: Dir, d: Dir): (r: seq<Dir>)
    ensures r == q + [d] <==> !Opposite(d, LastPending(q, current)) && d !in q
    ensures r != q + [d] ==> r == q
    ensures NoDup(q) ==> NoDup(r)
  {
    var isOpposite := Opposite(d, LastPending(q, current));
    var alreadyQueued := d in q;
    if !isOpposite && !alreadyQueued then q + [d] else q
  }

  /** The player's direction after a tick takes the front of the queue: the
      front entry, unless it reverses `current`. */
  function Steered(q: seq<Dir>, current: Dir): (d: Dir)
    ensures d == current || (|q| > 0 && d == q[0] && !Opposite(q[0], current))
    ensures |q| > 0 && !Opposite(q[0], current) ==> d == q[0]
  {
    if |q| > 0 && !Opposite(q[0], current) then q[0] else current
  }

  /** The queue after a tick: at most one entry leaves, from the front. */
  function Consumed(q: seq<Dir>): (r: seq<Dir>)
    ensures |q| > 0 ==> q == [q[0]] + r
    ensures |q| == 0 ==> r == q
  {
    if |q| > 0 then q[1..] else q
  }

  /** What the key handler keeps true of the queue: unit directions, no
      duplicates, and no entry reversing the one before it (the first entry
      not reversing the current direction). */
  ghost predicate Chained(q: seq<Dir>, current: Dir) {
    && (forall i :: 0 <= i < |q| ==> IsUnit(q[i]))
    && NoDup(q)
    && (|q| > 0 ==> !Opposite(q[0], current))
    && (forall i :: 0 < i < |q| ==> !Opposite(q[i], q[i - 1]))
  }

  lemma EnqueueKeepsChained(q: seq<Dir>, current: Dir, d: Dir)
    requires Chained(q, current) && IsUnit(d)
    ensures Chained(Enqueued(q, current, d), current)
  {
  }

  /** Taking a tick keeps the chain, relative to the new current direction,
      and the reversal test of the tick never rejects a chained entry. */
  lemma {:induction false} ConsumeKeepsChained(q: seq<Dir>, current: Dir)
    requires Chained(q, current)
    ensures |q| > 0 ==> Steered(q, current) == q[0]
    ensures Chained(Consumed(q), Steered(q, current))
  {
    if |q| > 1 {
      assert Consumed(q)[0] == q[1];
      forall i | 0 < i < |Consumed(q)|
        ensures !Opposite(Consumed(q)[i], Consumed(q)[i - 1])
      {
        assert Consumed(q)[i] == q[i + 1] && Consumed(q)[i - 1] == q[i];
      }
    }
  }

  /** The buffer never holds more than the four directions. */
  lemma QueueAtMostFour(q: seq<Dir>, current: Dir)
    requires Chained(q, current)
    ensures |q| <= 4
  {
    NoDupWithin(q, [Up, Down, Left, Right]);
  }
}
