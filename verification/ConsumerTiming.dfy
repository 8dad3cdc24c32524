/** How long a run waits between connections, and what a refused cursor leaves behind. */
module ConsumerTiming {
  import opened Common
  import opened Consumer
  import opened ConsumerSafety
  import Radix

  // ---- backoff ----

  /** The delay before the `k`th sleep: doubled each time, and capped after the first. */
  function Backoff(initial: nat, max: nat, k: nat): nat {
    var doubled := initial * Radix.Power(2, k);
    if k == 0 || doubled <= max then doubled else max
  }

  lemma BackoffDoubles(initial: nat, max: nat, k: nat)
    ensures Min(Backoff(initial, max, k) * 2, max) == Backoff(initial, max, k + 1)
  {
    assert initial * Radix.Power(2, k + 1) == initial * Radix.Power(2, k) * 2;
  }

  /** A run's sleeps are the jittered backoffs, one for each connection it outlives. */
  lemma {:induction false} SleepsBackOff(
    e: Setup, w: World, delay: nat, slept: seq<nat>, attempts: seq<Attempt>, i: nat)
    requires i <= |attempts| && |slept| == i
    requires delay == Backoff(e.config.initialReconnectDelay, e.config.maxReconnectDelay, i)
    requires forall k | 0 <= k < i ::
      slept[k] == Jittered(Backoff(e.config.initialReconnectDelay, e.config.maxReconnectDelay, k), attempts[k].draw)
    ensures var sleeps := RunFrom(e, w, delay, slept, attempts, i).2;
      && |sleeps| <= |attempts|
      && forall k | 0 <= k < |sleeps| ::
        sleeps[k] == Jittered(Backoff(e.config.initialReconnectDelay, e.config.maxReconnectDelay, k), attempts[k].draw)
    decreases |attempts| - i
  {
    if i < |attempts| && !attempts[i].stoppedBefore {
      var a := attempts[i];
      var (after, end) := Connection(e, w, a);
      if (end.StreamEnded? || end.ConnectionFailed?) && !a.stoppedAsleep {
        BackoffDoubles(e.config.initialReconnectDelay, e.config.maxReconnectDelay, i);
        SleepsBackOff(
          e, after, Min(delay * 2, e.config.maxReconnectDelay), slept + [Jittered(delay, a.draw)], attempts, i + 1);
      }
    }
  }

  /** The `k`th sleep of any run is its backoff, jittered. */
  lemma RunSleeps(e: Setup, w: World, attempts: seq<Attempt>, k: nat)
    requires k < |Ran(e, w, attempts).2|
    ensures k < |attempts|
    ensures Ran(e, w, attempts).2[k]
         == Jittered(Backoff(e.config.initialReconnectDelay, e.config.maxReconnectDelay, k), attempts[k].draw)
  {
    SleepsBackOff(e, w, e.config.initialReconnectDelay, [], attempts, 0);
  }

  /** The milliseconds of a delay that is slept for: never none. */
  function Millis(delay: nat): nat { if delay < 1_000_000 then 1 else delay / 1_000_000 }

  /** A sleep is any number of milliseconds from half the delay to the whole of it. */
  lemma JitterSpreads(delay: nat, sleep: nat)
    ensures (exists draw: nat :: Jittered(delay, draw) == sleep) <==> Millis(delay) / 2 <= sleep <= Millis(delay)
  {
    var millis := Millis(delay);
    var half := millis / 2;
    if half <= sleep <= millis {
      assert Jittered(delay, sleep - half) == sleep;
    }
  }

  // ---- a refused cursor ----

  lemma NoticeTurn(e: Setup, w: World, l: Local, x: Input, j: Judgement)
    requires x.Message? && j.Lost?
    ensures var p, a := Turn(e, w, l, x, j), x.answers;
      var refused := if a.loadOk then w.cursor else None;
      && p.Over? && p.end == StreamEnded
      && p.w.cursor == (if a.clearOk then None else w.cursor)
      && p.w.handed == w.handed + [Handing(CursorLost(refused, j.info), a.sinkAccepts, a.key)]
  {
  }

  /**
   * A notice that the cursor was refused ends the connection. If the store forgets it, nothing is
   * left, whatever was coalesced; if not, the cursor is the one that was refused.
   */
  lemma NoticeForgetsCursor(e: Setup, w: World, l: Local, inputs: seq<Input>, i: nat)
    requires i < |inputs| && IsCursorNotice(e, inputs[i])
    ensures var (w', end) := Consume(e, w, l, inputs, i);
      && end == StreamEnded
      && w'.cursor == (if inputs[i].answers.clearOk then None else w.cursor)
      && |w'.handed| == |w.handed| + 1 && w'.handed[..|w.handed|] == w.handed
      && w'.handed[|w.handed|].message.CursorLost?
      && w'.handed[|w.handed|].message.refused == (if inputs[i].answers.loadOk then w.cursor else None)
  {
    NoticeTurn(e, w, l, inputs[i], JudgementOf(e, inputs[i]));
  }

  predicate IsQuiet(inputs: seq<Input>) {
    forall i | 0 <= i < |inputs| :: !inputs[i].Message?
  }

  lemma {:induction false} QuietConsume(e: Setup, w: World, l: Local, inputs: seq<Input>, i: nat)
    requires i <= |inputs| && IsQuiet(inputs) && l.pending == None
    ensures Consume(e, w, l, inputs, i).0 == w
    decreases |inputs| - i
  {
    if i < |inputs| {
      var p := Step(e, w, l, inputs[i]);
      if p.Going? {
        QuietConsume(e, p.w, p.l, inputs, i + 1);
      }
    }
  }

  /** Connections on which no frame arrives leave the store, the sink and the audit alone. */
  lemma {:induction false} QuietConnections(e: Setup, w: World, attempts: seq<Attempt>)
    requires forall i | 0 <= i < |attempts| :: IsQuiet(attempts[i].inputs)
    ensures Connections(e, w, attempts) == w
    decreases |attempts|
  {
    if attempts != [] {
      var a := attempts[0];
      if a.connected {
        QuietConsume(e, w, Local(None, a.connectedAt), a.inputs, 0);
      }
      QuietConnections(e, w, attempts[1..]);
    }
  }

  /**
   * A refused cursor is not restored: once the store has forgotten it, every connection asks for
   * the live edge until some later connection is sent a frame.
   */
  lemma RefusedCursorStaysForgotten(
    e: Setup, w: World, l: Local, inputs: seq<Input>, i: nat, w': World, later: seq<Attempt>, next: Attempt)
    requires i < |inputs| && IsCursorNotice(e, inputs[i]) && inputs[i].answers.clearOk
    requires w' == Consume(e, w, l, inputs, i).0
    requires forall k | 0 <= k < |later| :: IsQuiet(later[k].inputs)
    ensures Requested(Connections(e, w', later), next) == None
  {
    NoticeForgetsCursor(e, w, l, inputs, i);
    QuietConnections(e, w', later);
  }
}
