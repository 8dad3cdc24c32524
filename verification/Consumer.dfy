/**
 * The firehose consumer: connect, decode, deliver, advance the cursor, reconnect.
 *
 * Everything outside the consumer is a script: what the stream yields, what the sink, the cursor
 * store and the key resolver answer, and what the clock reads. A script that ends is a process
 * that was killed there.
 */
module Consumer {
  import opened Common
  import opened Wire
  import Verify
  import Key

  datatype ConsumerConfig = ConsumerConfig(
    collections: seq<Utf8Text>, verification: Verify.Level,
    initialReconnectDelay: nat, maxReconnectDelay: nat, cursorFlushInterval: nat)  // nanoseconds

  datatype Setup = Setup(config: ConsumerConfig, parseCid: CidParser, checks: Verify.Checks)

  datatype IngestMessage =
    | Commit(envelope: CommitEnvelope, blocks: seq<byte>)
    | Resync(sync: SyncPayload)
    | Identity(identity: IdentityPayload)
    | Account(account: AccountPayload)
    | CursorLost(refused: Option<int>, info: InfoPayload)

  /** What one frame did to the stream. */
  datatype FrameOutcome =
    | Delivered(sequence: int)
    | Skipped(seen: Option<int>)
    | Held(refused: Option<int>)
    | Terminal(error: ErrorPayload)
    | CursorCleared

  /** What the sink, the store, the resolver and the clock say while one frame is handled. */
  datatype Answers = Answers(
    key: Option<Key.KeyData>, sinkAccepts: bool, loadOk: bool, clearOk: bool, storeOk: bool, now: nat)

  /** One turn of the connection's loop. `origin` is the frame's place in the server's history. */
  datatype Input =
    | ShutdownChanged(stop: bool, storeOk: bool)
    | Closed(storeOk: bool)
    | TransportError
    | NonBinary
    | Message(frame: seq<byte>, origin: Option<nat>, answers: Answers)

  datatype Attempt = Attempt(
    stoppedBefore: bool, loadOk: bool, connected: bool, connectedAt: nat, liveEdge: nat,
    inputs: seq<Input>, draw: nat, stoppedAsleep: bool)

  datatype ConnectionEnd = Stopped | StreamEnded | ConnectionFailed | ServerError(error: ErrorPayload) | Killed

  datatype RunEnd = Finished | Failed(error: ErrorPayload) | Crashed

  // ---- what outlives a connection ----

  /** A message given to the sink, whether it was applied, and the signing key resolved for it. */
  datatype Handing = Handing(message: IngestMessage, accepted: bool, key: Option<Key.KeyData>)

  datatype Verdict = Applied | Passed | Refused

  /** What one pass over a frame of the history came to, and the signing key resolved then. */
  datatype Entry = Entry(index: nat, verdict: Verdict, key: Option<Key.KeyData>)

  datatype World = World(cursor: Option<int>, handed: seq<Handing>, audit: seq<Entry>)

  // ---- one frame ----

  /** What a frame asks for, before anyone is asked. */
  datatype Judgement =
    | Pass(seen: Option<int>)
    | Hand(message: IngestMessage, sequence: int)
    | Lost(info: InfoPayload)
    | Stop(error: ErrorPayload)

  function JudgeCommit(e: Setup, f: Frame, envelope: CommitEnvelope, key: Option<Key.KeyData>): Judgement {
    if !MatchesTracked(envelope, e.config.collections) then Pass(Some(envelope.sequence))
    else
      match CommitBlocks(e.parseCid, f)
      case Err(_) => Pass(Some(envelope.sequence))
      case Ok(blocks) =>
        if Verify.Verified(e.checks, e.config.verification, envelope, blocks, key, e.config.collections).Err?
        then Pass(Some(envelope.sequence))
        else Hand(IngestMessage.Commit(envelope, blocks), envelope.sequence)
  }

  /** Nothing is filtered, or some op is in a collection the filter lists. */
  ghost predicate Touches(ops: seq<RepoOp>, collections: seq<Utf8Text>) {
    collections == [] || exists i :: 0 <= i < |ops| && Collection(ops[i].path) in collections
  }

  /** The commit touches a tracked collection, its blocks can be read, and it verifies with this key. */
  ghost predicate IsGood(e: Setup, f: Frame, p: CommitEnvelope, key: Option<Key.KeyData>) {
    && Touches(p.ops, e.config.collections)
    && CommitBlocks(e.parseCid, f).Ok?
    && Verify.Verified(
         e.checks, e.config.verification, p, CommitBlocks(e.parseCid, f).value, key, e.config.collections).Ok?
  }

  /** Good commits are handed on, all of them; the others are passed over. */
  lemma JudgedCommit(e: Setup, f: Frame, p: CommitEnvelope, key: Option<Key.KeyData>)
    ensures JudgeCommit(e, f, p, key)
         == if IsGood(e, f, p, key) then Hand(IngestMessage.Commit(p, CommitBlocks(e.parseCid, f).value), p.sequence)
            else Pass(Some(p.sequence))
  {
    assert forall i | 0 <= i < |p.ops| && e.config.collections != [] ::
      IsTracked(p.ops[i], e.config.collections) <==> Collection(p.ops[i].path) in e.config.collections;
  }

  function JudgeEvent(e: Setup, f: Frame, event: Event, key: Option<Key.KeyData>): Judgement {
    match event
    case Commit(envelope) => JudgeCommit(e, f, envelope, key)
    case Sync(payload) => Hand(Resync(payload), payload.sequence)
    case Identity(payload) => Hand(IngestMessage.Identity(payload), payload.sequence)
    case Account(payload) => Hand(IngestMessage.Account(payload), payload.sequence)
    case Info(info) => if info.IsOutdatedCursor() then Lost(info) else Pass(None)
    case Error(payload) => Stop(payload)
    case Unknown(_) => Pass(None)
  }

  function Judge(e: Setup, frame: seq<byte>, key: Option<Key.KeyData>): Judgement {
    match Split(e.parseCid, frame)
    case Err(_) => Pass(None)
    case Ok(f) =>
      match EventOf(e.parseCid, f)
      case Err(_) => Pass(None)
      case Ok(event) => JudgeEvent(e, f, event, key)
  }

  function Handed(w: World, message: IngestMessage, a: Answers): World {
    w.(handed := w.handed + [Handing(message, a.sinkAccepts, a.key)])
  }

  function Acted(w: World, j: Judgement, a: Answers): (World, FrameOutcome) {
    match j
    case Pass(seen) => (w, Skipped(seen))
    case Hand(message, sequence) =>
      (Handed(w, message, a), if a.sinkAccepts then Delivered(sequence) else Held(Some(sequence)))
    case Lost(info) =>
      var refused := if a.loadOk then w.cursor else None;
      var cleared := if a.clearOk then w.(cursor := None) else w;
      (Handed(cleared, CursorLost(refused, info), a), CursorCleared)
    case Stop(error) => (w, Terminal(error))
  }

  function Handled(e: Setup, w: World, frame: seq<byte>, a: Answers): (World, FrameOutcome) {
    Acted(w, Judge(e, frame, a.key), a)
  }

  // ---- one connection ----

  /** The highest sequence seen but not yet written, and when one was last written. */
  datatype Local = Local(pending: Option<int>, lastFlush: nat)

  datatype Progress = Going(w: World, l: Local) | Over(w: World, end: ConnectionEnd)

  function Flushed(w: World, pending: Option<int>, storeOk: bool): World {
    if pending.Some? && storeOk then w.(cursor := pending) else w
  }

  function VerdictOf(outcome: FrameOutcome): Option<Verdict> {
    match outcome
    case Delivered(_) => Some(Applied)
    case Skipped(_) => Some(Passed)
    case Held(_) => Some(Refused)
    case _ => None
  }

  function Audited(w: World, origin: Option<nat>, key: Option<Key.KeyData>, outcome: FrameOutcome): World {
    if origin.Some? && VerdictOf(outcome).Some?
    then w.(audit := w.audit + [Entry(origin.value, VerdictOf(outcome).value, key)])
    else w
  }

  predicate FlushDue(e: Setup, l: Local, now: nat) {
    (if now < l.lastFlush then 0 else now - l.lastFlush) >= e.config.cursorFlushInterval
  }

  function AfterFrame(e: Setup, w: World, l: Local, outcome: FrameOutcome, a: Answers): Progress {
    match outcome
    case Delivered(sequence) => Going(Flushed(w, Some(sequence), a.storeOk), Local(None, a.now))
    case Skipped(seen) =>
      var pending := if seen.Some? then seen else l.pending;
      if FlushDue(e, l, a.now) then Going(Flushed(w, pending, a.storeOk), Local(None, a.now))
      else Going(w, l.(pending := pending))
    case Held(_) => Going(w, l.(pending := None))
    case CursorCleared => Over(w, StreamEnded)
    case Terminal(error) => Over(Flushed(w, l.pending, a.storeOk), ServerError(error))
  }

  /** One turn, `j` being what its frame asks for. */
  function Turn(e: Setup, w: World, l: Local, x: Input, j: Judgement): Progress {
    match x
    case ShutdownChanged(stop, storeOk) => if stop then Over(Flushed(w, l.pending, storeOk), Stopped) else Going(w, l)
    case Closed(storeOk) => Over(Flushed(w, l.pending, storeOk), StreamEnded)
    case TransportError => Over(w, StreamEnded)
    case NonBinary => Going(w, l)
    case Message(_, origin, a) =>
      var (acted, outcome) := Acted(w, j, a);
      AfterFrame(e, Audited(acted, origin, a.key, outcome), l, outcome, a)
  }

  function JudgementOf(e: Setup, x: Input): Judgement {
    if x.Message? then Judge(e, x.frame, x.answers.key) else Pass(None)
  }

  function Step(e: Setup, w: World, l: Local, x: Input): Progress {
    Turn(e, w, l, x, JudgementOf(e, x))
  }

  function Consume(e: Setup, w: World, l: Local, inputs: seq<Input>, i: nat): (World, ConnectionEnd)
    requires i <= |inputs|
    decreases |inputs| - i
  {
    if i == |inputs| then (w, Killed)
    else
      match Step(e, w, l, inputs[i])
      case Going(w', l') => Consume(e, w', l', inputs, i + 1)
      case Over(w', end) => (w', end)
  }

  /** The cursor a connection asks the server to resume from. */
  function Requested(w: World, a: Attempt): Option<int> {
    if a.loadOk then w.cursor else None
  }

  function Connection(e: Setup, w: World, a: Attempt): (World, ConnectionEnd) {
    if a.connected then Consume(e, w, Local(None, a.connectedAt), a.inputs, 0) else (w, ConnectionFailed)
  }

  // ---- a run ----

  function Min(a: nat, b: nat): nat { if a <= b then a else b }

  function Max(a: nat, b: nat): nat { if a >= b then a else b }

  const NANOS_PER_MILLI := 1_000_000

  /** Milliseconds slept for a delay, `draw` being the random choice. */
  function Jittered(delay: nat, draw: nat): nat {
    var millis := Max(delay / NANOS_PER_MILLI, 1);
    var half := millis / 2;
    half + draw % (millis - half + 1)
  }

  /** What a run leaves, how it ends, and the sleeps between its connections, after those already `slept`. */
  function RunFrom(
    e: Setup, w: World, delay: nat, slept: seq<nat>, attempts: seq<Attempt>, i: nat): (World, RunEnd, seq<nat>)
    requires i <= |attempts|
    decreases |attempts| - i
  {
    if i == |attempts| then (w, Crashed, slept)
    else
      var a := attempts[i];
      if a.stoppedBefore then (w, Finished, slept)
      else
        var (after, end) := Connection(e, w, a);
        match end
        case Stopped => (after, Finished, slept)
        case ServerError(error) => (after, Failed(error), slept)
        case Killed => (after, Crashed, slept)
        case _ =>
          var sleeps := slept + [Jittered(delay, a.draw)];
          if a.stoppedAsleep then (after, Finished, sleeps)
          else RunFrom(e, after, Min(delay * 2, e.config.maxReconnectDelay), sleeps, attempts, i + 1)
  }

  function Ran(e: Setup, w: World, attempts: seq<Attempt>): (World, RunEnd, seq<nat>) {
    RunFrom(e, w, e.config.initialReconnectDelay, [], attempts, 0)
  }

  // ---- the consumer ----

  class FirehoseConsumer {
    const setup: Setup
    /** What the cursor store holds for this consumer's source. */
    var cursor: Option<int>
    /** What the sink was given. */
    var handed: seq<Handing>
    ghost var audit: seq<Entry>

    constructor (setup: Setup, cursor: Option<int>)
      ensures this.setup == setup && State() == World(cursor, [], [])
    {
      this.setup := setup;
      this.cursor := cursor;
      handed := [];
      audit := [];
    }

    ghost function State(): World
      reads this
    {
      World(cursor, handed, audit)
    }

    /** Write the coalesced cursor, if there is one; it is taken even when the write fails. */
    method Flush(pending: Option<int>, storeOk: bool) returns (rest: Option<int>)
      modifies `cursor
      ensures rest == None
      ensures State() == Flushed(old(State()), pending, storeOk)
    {
      rest := None;
      if pending.None? { return; }
      if storeOk {
        cursor := pending;
      }
    }

    method Deliver(message: IngestMessage, sequence: Option<int>, a: Answers) returns (outcome: FrameOutcome)
      modifies `handed
      ensures State() == Handed(old(State()), message, a)
      ensures a.sinkAccepts && sequence.Some? ==> outcome == Delivered(sequence.value)
      ensures a.sinkAccepts && sequence.None? ==> outcome == Skipped(None)
      ensures !a.sinkAccepts ==> outcome == Held(sequence)
    {
      handed := handed + [Handing(message, a.sinkAccepts, a.key)];
      if !a.sinkAccepts { return Held(sequence); }
      match sequence {
        case Some(n) => return Delivered(n);
        case None => return Skipped(None);
      }
    }

    method HandleFrame(frame: seq<byte>, a: Answers) returns (outcome: FrameOutcome)
      modifies `cursor, `handed
      ensures (State(), outcome) == Handled(setup, old(State()), frame, a)
    {
      var f := SplitFrame(setup.parseCid, frame);
      if f.Err? { return Skipped(None); }
      var event := EventOf(setup.parseCid, f.value);
      if event.Err? { return Skipped(None); }
      outcome := HandleEvent(f.value, event.value, a);
    }

    method HandleEvent(f: Frame, event: Event, a: Answers) returns (outcome: FrameOutcome)
      modifies `cursor, `handed
      ensures (State(), outcome) == Acted(old(State()), JudgeEvent(setup, f, event, a.key), a)
    {
      match event {
        case Commit(envelope) => outcome := HandleCommit(f, envelope, a);
        case Sync(payload) => outcome := Deliver(Resync(payload), Some(payload.sequence), a);
        case Identity(payload) => outcome := Deliver(IngestMessage.Identity(payload), Some(payload.sequence), a);
        case Account(payload) => outcome := Deliver(IngestMessage.Account(payload), Some(payload.sequence), a);
        case Info(info) =>
          if !info.IsOutdatedCursor() { return Skipped(None); }
          var refused := if a.loadOk then cursor else None;
          if a.clearOk {
            cursor := None;
          }
          var _ := Deliver(CursorLost(refused, info), None, a);
          outcome := CursorCleared;
        case Error(payload) => outcome := Terminal(payload);
        case Unknown(_) => outcome := Skipped(None);
      }
    }

    method HandleCommit(f: Frame, envelope: CommitEnvelope, a: Answers) returns (outcome: FrameOutcome)
      modifies `handed
      ensures (State(), outcome) == Acted(old(State()), JudgeCommit(setup, f, envelope, a.key), a)
      ensures IsGood(setup, f, envelope, a.key) ==>
        && handed == old(handed) + [
             Handing(IngestMessage.Commit(envelope, CommitBlocks(setup.parseCid, f).value), a.sinkAccepts, a.key)]
        && outcome == if a.sinkAccepts then Delivered(envelope.sequence) else Held(Some(envelope.sequence))
      ensures !IsGood(setup, f, envelope, a.key) ==>
        handed == old(handed) && outcome == Skipped(Some(envelope.sequence))
    {
      JudgedCommit(setup, f, envelope, a.key);
      if !MatchesTracked(envelope, setup.config.collections) { return Skipped(Some(envelope.sequence)); }
      var blocks := CommitBlocks(setup.parseCid, f);
      if blocks.Err? { return Skipped(Some(envelope.sequence)); }
      var verdict := Verify.VerifyCommit(
        setup.checks, setup.config.verification, envelope, blocks.value, a.key, setup.config.collections);
      if verdict.Err? { return Skipped(Some(envelope.sequence)); }
      outcome := Deliver(IngestMessage.Commit(envelope, blocks.value), Some(envelope.sequence), a);
    }

    /** Move the cursor as a frame's outcome allows; `end` is how the connection ends, if it does. */
    method Settle(outcome: FrameOutcome, a: Answers, seen: Option<int>, flushed: nat)
      returns (end: Option<ConnectionEnd>, pending: Option<int>, lastFlush: nat)
      modifies `cursor
      ensures AfterFrame(setup, old(State()), Local(seen, flushed), outcome, a)
           == if end.Some? then Over(State(), end.value) else Going(State(), Local(pending, lastFlush))
    {
      end, pending, lastFlush := None, seen, flushed;
      match outcome {
        case Delivered(sequence) =>
          pending := Some(sequence);
          pending := Flush(pending, a.storeOk);
          lastFlush := a.now;
        case Skipped(number) =>
          var due := FlushDue(setup, Local(pending, lastFlush), a.now);
          if number.Some? {
            pending := number;
          }
          if due {
            pending := Flush(pending, a.storeOk);
            lastFlush := a.now;
          }
        case Held(_) => pending := None;
        case CursorCleared => end := Some(StreamEnded);
        case Terminal(error) =>
          pending := Flush(pending, a.storeOk);
          end := Some(ServerError(error));
      }
    }

    /** Handle one frame and settle its outcome. */
    method TakeFrame(frame: seq<byte>, origin: Option<nat>, a: Answers, seen: Option<int>, flushed: nat)
      returns (end: Option<ConnectionEnd>, pending: Option<int>, lastFlush: nat)
      modifies this
      ensures Step(setup, old(State()), Local(seen, flushed), Message(frame, origin, a))
           == if end.Some? then Over(State(), end.value) else Going(State(), Local(pending, lastFlush))
    {
      var outcome := HandleFrame(frame, a);
      audit := Audited(State(), origin, a.key, outcome).audit;
      end, pending, lastFlush := Settle(outcome, a, seen, flushed);
    }

    /** One connection's worth of frames; `requested` is the cursor the server was asked for. */
    method ConnectAndConsume(attempt: Attempt) returns (end: ConnectionEnd, requested: Option<int>)
      modifies this
      ensures (State(), end) == Connection(setup, old(State()), attempt)
      ensures requested == Requested(old(State()), attempt)
    {
      requested := if attempt.loadOk then cursor else None;
      if !attempt.connected { return ConnectionFailed, requested; }

      var pending: Option<int> := None;
      var lastFlush := attempt.connectedAt;
      var i := 0;
      while i < |attempt.inputs|
        invariant i <= |attempt.inputs|
        invariant Consume(setup, State(), Local(pending, lastFlush), attempt.inputs, i)
               == Connection(setup, old(State()), attempt)
      {
        match attempt.inputs[i] {
          case ShutdownChanged(stop, storeOk) =>
            if stop {
              pending := Flush(pending, storeOk);
              return Stopped, requested;
            }
          case Closed(storeOk) =>
            pending := Flush(pending, storeOk);
            return StreamEnded, requested;
          case TransportError => return StreamEnded, requested;
          case NonBinary =>
          case Message(frame, origin, a) =>
            var over;
            over, pending, lastFlush := TakeFrame(frame, origin, a, pending, lastFlush);
            if over.Some? { return over.value, requested; }
        }
        i := i + 1;
      }
      return Killed, requested;
    }

    /** Connect, consume, and reconnect until told to stop or the server sends a terminal error. */
    method Run(attempts: seq<Attempt>) returns (end: RunEnd, sleeps: seq<nat>)
      modifies this
      ensures (State(), end, sleeps) == Ran(setup, old(State()), attempts)
    {
      var delay := setup.config.initialReconnectDelay;
      sleeps := [];
      var i := 0;
      while i < |attempts|
        invariant i <= |attempts|
        invariant RunFrom(setup, State(), delay, sleeps, attempts, i) == Ran(setup, old(State()), attempts)
      {
        var a := attempts[i];
        if a.stoppedBefore { return Finished, sleeps; }
        var ended, _ := ConnectAndConsume(a);
        match ended {
          case Stopped => return Finished, sleeps;
          case ServerError(error) => return Failed(error), sleeps;
          case Killed => return Crashed, sleeps;
          case _ =>
        }
        sleeps := sleeps + [Jittered(delay, a.draw)];
        if a.stoppedAsleep { return Finished, sleeps; }
        delay := Min(delay * 2, setup.config.maxReconnectDelay);
        i := i + 1;
      }
      return Crashed, sleeps;
    }
  }
}
