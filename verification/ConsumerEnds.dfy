/** How connections and runs end, and when a run connects again. */
module ConsumerEnds {
  import opened Common
  import opened Wire
  import opened Consumer
  import opened ConsumerSafety
  import opened ConsumerJudgement
  import ConsumerRuns
  import ConsumerTiming

  // ---- one turn ----

  /** What the frame decodes to, if it decodes. */
  function EventIn(e: Setup, frame: seq<byte>): Option<Event> {
    if Decodes(e, frame) then Some(EventOf(e.parseCid, Split(e.parseCid, frame).value).value) else None
  }

  /** How the input ends the connection, if it does: told from the input and what its frame decodes to. */
  function EndingOf(e: Setup, x: Input): Option<ConnectionEnd> {
    match x
    case ShutdownChanged(stop, _) => if stop then Some(Stopped) else None
    case Closed(_) => Some(StreamEnded)
    case TransportError => Some(StreamEnded)
    case NonBinary => None
    case Message(frame, _, _) =>
      match EventIn(e, frame)
      case Some(Error(p)) => Some(ServerError(p))
      case Some(Info(p)) => if p.name == Ascii("OutdatedCursor") then Some(StreamEnded) else None
      case _ => None
  }

  lemma TurnEnding(e: Setup, w: World, l: Local, x: Input, j: Judgement)
    ensures var p := Turn(e, w, l, x, j);
      match x
      case ShutdownChanged(stop, storeOk) =>
        if stop then p.Over? && p.end == Stopped && p.w == Flushed(w, l.pending, storeOk) else p == Going(w, l)
      case Closed(storeOk) => p.Over? && p.end == StreamEnded && p.w == Flushed(w, l.pending, storeOk)
      case TransportError => p == Over(w, StreamEnded)
      case NonBinary => p == Going(w, l)
      case Message(_, _, _) =>
        && (p.Over? <==> j.Lost? || j.Stop?)
        && (j.Lost? ==> p.end == StreamEnded)
        && (j.Stop? ==> p.end == ServerError(j.error))
  {
  }

  /** A turn ends the connection as its input says, and otherwise the connection goes on. */
  lemma StepEnds(e: Setup, w: World, l: Local, x: Input)
    ensures var p := Step(e, w, l, x);
      match EndingOf(e, x) case Some(end) => p.Over? && p.end == end case None => p.Going?
  {
    TurnEnding(e, w, l, x, JudgementOf(e, x));
    if x.Message? {
      if Decodes(e, x.frame) {
        JudgedEvent(e, x.frame, Split(e.parseCid, x.frame).value, EventIn(e, x.frame).value, x.answers.key);
      } else {
        JudgedUndecodable(e, x.frame, x.answers.key);
      }
    }
  }

  /** The first input from `i` on that ends a connection. */
  function FirstEnding(e: Setup, inputs: seq<Input>, i: nat): (n: nat)
    requires i <= |inputs|
    ensures i <= n <= |inputs|
    ensures forall k | i <= k < n :: EndingOf(e, inputs[k]).None?
    ensures n < |inputs| ==> EndingOf(e, inputs[n]).Some?
    decreases |inputs| - i
  {
    if i == |inputs| || EndingOf(e, inputs[i]).Some? then i else FirstEnding(e, inputs, i + 1)
  }

  /** A connection ends at the first input that says so; one whose script runs out is killed. */
  lemma {:induction false} ConsumeEnds(e: Setup, w: World, l: Local, inputs: seq<Input>, i: nat)
    requires i <= |inputs|
    ensures var n := FirstEnding(e, inputs, i);
      Consume(e, w, l, inputs, i).1 == if n < |inputs| then EndingOf(e, inputs[n]).value else Killed
    decreases |inputs| - i
  {
    if i < |inputs| {
      StepEnds(e, w, l, inputs[i]);
      var p := Step(e, w, l, inputs[i]);
      if p.Going? {
        ConsumeEnds(e, p.w, p.l, inputs, i + 1);
      }
    }
  }

  /** How a connection ends does not depend on the store, the sink or the key resolver. */
  function ConnectionEnding(e: Setup, a: Attempt): ConnectionEnd {
    var n := FirstEnding(e, a.inputs, 0);
    if !a.connected then ConnectionFailed
    else if n < |a.inputs| then EndingOf(e, a.inputs[n]).value
    else Killed
  }

  lemma ConnectionEnds(e: Setup, w: World, a: Attempt)
    ensures Connection(e, w, a).1 == ConnectionEnding(e, a)
  {
    if a.connected {
      ConsumeEnds(e, w, Local(None, a.connectedAt), a.inputs, 0);
    }
  }

  // ---- runs ----

  /** Nothing stops a run from connecting again after this attempt. */
  predicate IsRetried(e: Setup, a: Attempt) {
    !a.stoppedBefore && !a.stoppedAsleep &&
    (ConnectionEnding(e, a) == StreamEnded || ConnectionEnding(e, a) == ConnectionFailed)
  }

  predicate KeepsTrying(e: Setup, attempts: seq<Attempt>, k: nat) {
    k <= |attempts| && forall i | 0 <= i < k :: IsRetried(e, attempts[i])
  }

  function Delay(e: Setup, k: nat): nat {
    ConsumerTiming.Backoff(e.config.initialReconnectDelay, e.config.maxReconnectDelay, k)
  }

  function Sleeps(e: Setup, attempts: seq<Attempt>, k: nat): seq<nat>
    requires k <= |attempts|
  {
    seq(k, i requires 0 <= i < k => Jittered(Delay(e, i), attempts[i].draw))
  }

  /** What the first `k` attempts leave. */
  function WorldAt(e: Setup, w: World, attempts: seq<Attempt>, k: nat): World
    requires k <= |attempts|
  {
    Connections(e, w, attempts[..k])
  }

  lemma WorldAfter(e: Setup, w: World, attempts: seq<Attempt>, k: nat)
    requires k < |attempts|
    ensures WorldAt(e, w, attempts, k + 1) == Connection(e, WorldAt(e, w, attempts, k), attempts[k]).0
  {
    assert attempts[..k + 1] == attempts[..k] + [attempts[k]];
    ConsumerRuns.ConnectionsConcat(e, w, attempts[..k], [attempts[k]]);
    ConsumerRuns.ConnectionsOfOne(e, WorldAt(e, w, attempts, k), attempts[k]);
  }

  lemma {:induction false} RunReaches(e: Setup, w: World, attempts: seq<Attempt>, k: nat)
    requires KeepsTrying(e, attempts, k)
    ensures Ran(e, w, attempts)
         == RunFrom(e, WorldAt(e, w, attempts, k), Delay(e, k), Sleeps(e, attempts, k), attempts, k)
  {
    if k > 0 {
      var i := k - 1;
      var a, before := attempts[i], WorldAt(e, w, attempts, i);
      RunReaches(e, w, attempts, i);
      assert IsRetried(e, a);
      ConnectionEnds(e, before, a);
      WorldAfter(e, w, attempts, i);
      ConsumerTiming.BackoffDoubles(e.config.initialReconnectDelay, e.config.maxReconnectDelay, i);
      assert Sleeps(e, attempts, k) == Sleeps(e, attempts, i) + [Jittered(Delay(e, i), a.draw)];
    }
  }

  /** What a run comes to when attempt `k` is the first it does not retry. */
  ghost predicate EndsAt(e: Setup, w: World, attempts: seq<Attempt>, k: nat, r: (World, RunEnd, seq<nat>))
    requires k <= |attempts|
  {
    if k == |attempts| then r == (WorldAt(e, w, attempts, k), Crashed, Sleeps(e, attempts, k))
    else if attempts[k].stoppedBefore then r == (WorldAt(e, w, attempts, k), Finished, Sleeps(e, attempts, k))
    else
      var after := WorldAt(e, w, attempts, k + 1);
      match ConnectionEnding(e, attempts[k])
      case Stopped => r == (after, Finished, Sleeps(e, attempts, k))
      case ServerError(error) => r == (after, Failed(error), Sleeps(e, attempts, k))
      case Killed => r == (after, Crashed, Sleeps(e, attempts, k))
      case _ => attempts[k].stoppedAsleep && r == (after, Finished, Sleeps(e, attempts, k + 1))
  }

  /**
   * A run connects again after every stream end and failed connection, sleeping in between, until it
   * is told to stop, the server sends an error, or the process is killed; it ends accordingly, and
   * leaves what its connections leave.
   */
  lemma {:induction false} RunEnds(e: Setup, w: World, attempts: seq<Attempt>, i: nat) returns (k: nat)
    requires KeepsTrying(e, attempts, i)
    ensures i <= k && KeepsTrying(e, attempts, k) && EndsAt(e, w, attempts, k, Ran(e, w, attempts))
    decreases |attempts| - i
  {
    k := i;
    if i < |attempts| && IsRetried(e, attempts[i]) {
      k := RunEnds(e, w, attempts, i + 1);
    } else {
      RunReaches(e, w, attempts, i);
      if i < |attempts| {
        ConnectionEnds(e, WorldAt(e, w, attempts, i), attempts[i]);
        WorldAfter(e, w, attempts, i);
        if attempts[i].stoppedAsleep && !attempts[i].stoppedBefore {
          assert Sleeps(e, attempts, i + 1) == Sleeps(e, attempts, i) + [Jittered(Delay(e, i), attempts[i].draw)];
        }
      }
    }
  }
}
