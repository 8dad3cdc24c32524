/** When the cursor is written: at once behind a delivery, coalesced behind skips, and before a clean end. */
module ConsumerProgress {
  import opened Common
  import opened Consumer

  // ---- the cursor keeps up ----

  /** The number a frame lets the cursor move to, if it is not refused. */
  function NumberOf(j: Judgement): Option<int> {
    match j
    case Pass(seen) => seen
    case Hand(_, sequence) => Some(sequence)
    case _ => None
  }

  function SeenIn(e: Setup, x: Input): Option<int> {
    if x.Message? then NumberOf(JudgementOf(e, x)) else None
  }

  /** The last number seen from input `i` on, before the connection ends; `before` if there is none. */
  function LastSeen(e: Setup, inputs: seq<Input>, i: nat, before: Option<int>): Option<int>
    requires i <= |inputs|
    decreases |inputs| - i
  {
    if i == |inputs| || Ends(e, inputs[i]) then before
    else LastSeen(e, inputs, i + 1, if SeenIn(e, inputs[i]).Some? then SeenIn(e, inputs[i]) else before)
  }

  /** This input ends the connection, `j` being what its frame asks for. */
  predicate TurnEnds(x: Input, j: Judgement) {
    match x
    case ShutdownChanged(stop, _) => stop
    case Closed(_) => true
    case TransportError => true
    case NonBinary => false
    case Message(_, _, _) => j.Lost? || j.Stop?
  }

  predicate Ends(e: Setup, x: Input) { TurnEnds(x, JudgementOf(e, x)) }

  /** Every write succeeds and the sink takes everything. */
  predicate GoesWell(x: Input) {
    match x
    case ShutdownChanged(_, storeOk) => storeOk
    case Closed(storeOk) => storeOk
    case Message(_, _, a) => a.storeOk && a.sinkAccepts
    case _ => true
  }

  /** The connection ends by being told to stop, by the server closing it, or by a terminal error. */
  predicate EndsCleanly(e: Setup, inputs: seq<Input>, i: nat)
    requires i <= |inputs|
    decreases |inputs| - i
  {
    i < |inputs| && if Ends(e, inputs[i]) then IsCleanEnd(e, inputs[i]) else EndsCleanly(e, inputs, i + 1)
  }

  predicate IsCleanEnd(e: Setup, x: Input) {
    match x
    case ShutdownChanged(stop, _) => stop
    case Closed(_) => true
    case Message(frame, _, a) => Judge(e, frame, a.key).Stop?
    case _ => false
  }

  /** What the store will hold once the coalesced cursor is written. */
  function UpToDate(w: World, l: Local): Option<int> {
    if l.pending.Some? then l.pending else w.cursor
  }

  lemma TurnKeepsUp(e: Setup, w: World, l: Local, x: Input, j: Judgement)
    requires GoesWell(x)
    ensures var p, seen := Turn(e, w, l, x, j), if x.Message? then NumberOf(j) else None;
      && (p.Over? <==> TurnEnds(x, j))
      && (p.Going? ==> UpToDate(p.w, p.l) == if seen.Some? then seen else UpToDate(w, l))
  {
  }

  /**
   * When the sink takes everything and the store never fails, a connection that ends cleanly
   * leaves the cursor at the last number seen: nothing coalesced is lost, whatever the timing.
   */
  lemma {:induction false} CleanEndIsUpToDate(e: Setup, w: World, l: Local, inputs: seq<Input>, i: nat)
    requires i <= |inputs| && EndsCleanly(e, inputs, i)
    requires forall k | i <= k < |inputs| :: GoesWell(inputs[k])
    ensures Consume(e, w, l, inputs, i).0.cursor == LastSeen(e, inputs, i, UpToDate(w, l))
    decreases |inputs| - i
  {
    TurnKeepsUp(e, w, l, inputs[i], JudgementOf(e, inputs[i]));
    var p := Step(e, w, l, inputs[i]);
    if p.Going? {
      CleanEndIsUpToDate(e, p.w, p.l, inputs, i + 1);
    }
  }

  // ---- but not by a write for every frame ----

  /** Where the connection stands before input `j`. */
  function Reaches(e: Setup, w: World, l: Local, inputs: seq<Input>, i: nat, j: nat): Progress
    requires i <= j <= |inputs|
    decreases j - i
  {
    if i == j then Going(w, l)
    else
      match Step(e, w, l, inputs[i])
      case Going(w', l') => Reaches(e, w', l', inputs, i + 1, j)
      case over => over
  }

  /** This turn writes the cursor behind a frame that was only skipped. */
  predicate WritesSkip(e: Setup, l: Local, x: Input) {
    && x.Message? && Judge(e, x.frame, x.answers.key).Pass?
    && (SeenIn(e, x).Some? || l.pending.Some?)
    && FlushDue(e, l, x.answers.now)
  }

  /** The clock does not go back. */
  predicate ClockAdvances(inputs: seq<Input>) {
    forall i, j | 0 <= i < j < |inputs| && inputs[i].Message? && inputs[j].Message? ::
      inputs[i].answers.now <= inputs[j].answers.now
  }

  lemma LastFlushMovesForward(e: Setup, w: World, l: Local, x: Input, since: nat)
    requires since <= l.lastFlush && (x.Message? ==> since <= x.answers.now)
    ensures var p := Step(e, w, l, x); p.Going? ==> since <= p.l.lastFlush
  {
  }

  lemma {:induction false} LastFlushStays(
    e: Setup, w: World, l: Local, inputs: seq<Input>, i: nat, j: nat, since: nat)
    requires i <= j <= |inputs| && since <= l.lastFlush
    requires forall k | i <= k < j && inputs[k].Message? :: since <= inputs[k].answers.now
    ensures var p := Reaches(e, w, l, inputs, i, j); p.Going? ==> since <= p.l.lastFlush
    decreases j - i
  {
    if i < j {
      LastFlushMovesForward(e, w, l, inputs[i], since);
      var p := Step(e, w, l, inputs[i]);
      if p.Going? {
        LastFlushStays(e, p.w, p.l, inputs, i + 1, j, since);
      }
    }
  }

  /** A turn after which a whole interval must pass before a skip is written: a delivery, or a due flush. */
  predicate ResetsFlush(e: Setup, l: Local, x: Input) {
    x.Message? &&
    match Judge(e, x.frame, x.answers.key)
    case Hand(_, _) => x.answers.sinkAccepts
    case Pass(_) => FlushDue(e, l, x.answers.now)
    case _ => false
  }

  /**
   * However many frames are skipped, a write behind a skip comes a whole flush interval after the
   * connection's last write behind a delivery or a skip.
   */
  lemma SkipWritesAreSpaced(e: Setup, w: World, l: Local, inputs: seq<Input>, i: nat, j: nat)
    requires i < j < |inputs| && ClockAdvances(inputs) && ResetsFlush(e, l, inputs[i])
    requires var p := Reaches(e, w, l, inputs, i, j); p.Going? && WritesSkip(e, p.l, inputs[j])
    ensures inputs[j].answers.now - inputs[i].answers.now >= e.config.cursorFlushInterval
  {
    var p := Step(e, w, l, inputs[i]);
    LastFlushStays(e, p.w, p.l, inputs, i + 1, j, inputs[i].answers.now);
  }

  // ---- and no skip waits longer than an interval ----

  lemma {:induction false} ReachesNext(e: Setup, w: World, l: Local, inputs: seq<Input>, i: nat, j: nat)
    requires i <= j < |inputs|
    ensures Reaches(e, w, l, inputs, i, j + 1)
         == match Reaches(e, w, l, inputs, i, j)
            case Going(w', l') => Step(e, w', l', inputs[j])
            case over => over
    decreases j - i
  {
    var p := Step(e, w, l, inputs[i]);
    if i < j && p.Going? {
      ReachesNext(e, p.w, p.l, inputs, i + 1, j);
    }
  }

  /** A skip is coalesced only within an interval of the last write, by the clock; then it is written. */
  lemma SkipTurn(e: Setup, w: World, l: Local, x: Input, j: Judgement)
    requires x.Message? && j.Pass?
    ensures var a, p := x.answers, Turn(e, w, l, x, j);
      var seen := if j.seen.Some? then j.seen else l.pending;
      && p.Going?
      && (p.l.pending.Some? ==> a.now < l.lastFlush + e.config.cursorFlushInterval && p.l == Local(seen, l.lastFlush))
      && (a.now >= l.lastFlush + e.config.cursorFlushInterval ==>
        p.l == Local(None, a.now) && p.w.cursor == if a.storeOk && seen.Some? then seen else w.cursor)
  {
  }

  /** Another message leaves nothing coalesced, or ends the connection. */
  lemma HandTurn(e: Setup, w: World, l: Local, x: Input, j: Judgement)
    requires x.Message? && !j.Pass?
    ensures var p := Turn(e, w, l, x, j); p.Going? ==> p.l.pending == None
  {
  }

  /**
   * While a number is coalesced, every frame skipped so far came less than a flush interval after
   * the last write: a cursor lags behind skips by no more than that.
   */
  lemma {:induction false} LagIsShort(e: Setup, w: World, l: Local, inputs: seq<Input>, i: nat, j: nat, k: nat)
    requires i <= k < j <= |inputs| && ClockAdvances(inputs) && l.pending == None
    requires inputs[k].Message? && Judge(e, inputs[k].frame, inputs[k].answers.key).Pass?
    requires var p := Reaches(e, w, l, inputs, i, j); p.Going? && p.l.pending.Some?
    ensures inputs[k].answers.now < Reaches(e, w, l, inputs, i, j).l.lastFlush + e.config.cursorFlushInterval
    decreases j
  {
    var x := inputs[j - 1];
    ReachesNext(e, w, l, inputs, i, j - 1);
    var p := Reaches(e, w, l, inputs, i, j - 1);
    if x.Message? {
      if JudgementOf(e, x).Pass? {
        SkipTurn(e, p.w, p.l, x, JudgementOf(e, x));
        assert k < j - 1 ==> inputs[k].answers.now <= x.answers.now;
      } else {
        HandTurn(e, p.w, p.l, x, JudgementOf(e, x));
      }
    } else {
      LagIsShort(e, w, l, inputs, i, j - 1, k);
    }
  }
}
