/** What becomes of a message the sink refuses. */
module ConsumerHeld {
  import opened Common
  import opened Wire
  import opened Consumer
  import opened ConsumerSafety
  import FrameEvents
  import Frames
  import Key

  /** This turn writes the cursor, `j` being what its frame asks for. */
  predicate TurnWrites(e: Setup, l: Local, x: Input, j: Judgement) {
    match x
    case ShutdownChanged(stop, storeOk) => stop && l.pending.Some? && storeOk
    case Closed(storeOk) => l.pending.Some? && storeOk
    case Message(_, _, a) =>
      a.storeOk &&
      (match j
       case Hand(_, _) => a.sinkAccepts
       case Pass(seen) => FlushDue(e, l, a.now) && (seen.Some? || l.pending.Some?)
       case Stop(_) => l.pending.Some?
       case _ => false)
    case _ => false
  }

  predicate Writes(e: Setup, l: Local, x: Input) { TurnWrites(e, l, x, JudgementOf(e, x)) }

  /** Some turn from `i` on, before the connection ends, writes the cursor. */
  predicate EverWrites(e: Setup, w: World, l: Local, inputs: seq<Input>, i: nat)
    requires i <= |inputs|
    decreases |inputs| - i
  {
    i < |inputs| &&
    (Writes(e, l, inputs[i])
     || match Step(e, w, l, inputs[i])
        case Going(w', l') => EverWrites(e, w', l', inputs, i + 1)
        case Over(_, _) => false)
  }

  /** This turn is a notice that the cursor was refused, and the store forgets it. */
  predicate Clears(e: Setup, x: Input) { x.Message? && IsCursorNotice(e, x) && x.answers.clearOk }

  /** Some turn from `i` on, before the connection ends, clears the cursor. */
  predicate EverClears(e: Setup, w: World, l: Local, inputs: seq<Input>, i: nat)
    requires i <= |inputs|
    decreases |inputs| - i
  {
    i < |inputs| &&
    (Clears(e, inputs[i])
     || match Step(e, w, l, inputs[i])
        case Going(w', l') => EverClears(e, w', l', inputs, i + 1)
        case Over(_, _) => false)
  }

  predicate IsPast(cursor: Option<int>, n: int) { cursor.Some? && n < cursor.value }

  lemma TurnAfter(e: Setup, w: World, l: Local, x: Input, j: Judgement, n: int)
    requires IsUnnumbered(j) || exists m :: n < m && IsAbout(j, m)
    requires l.pending.Some? ==> IsPast(l.pending, n)
    ensures var p := Turn(e, w, l, x, j);
      && (PendingOf(p).Some? ==> IsPast(PendingOf(p), n))
      && (x.Message? && j.Lost? && x.answers.clearOk ==> p.Over? && p.w.cursor == None)
      && (TurnWrites(e, l, x, j) ==> IsPast(p.w.cursor, n))
      && (!(x.Message? && j.Lost? && x.answers.clearOk) && !TurnWrites(e, l, x, j) ==> p.w.cursor == w.cursor)
  {
  }

  /**
   * After frame `n`, a turn that writes leaves the cursor past it, and one that neither writes nor
   * clears leaves it alone.
   */
  lemma StepAfter(e: Setup, hist: seq<Sent>, w: World, l: Local, x: Input, n: nat, next: nat)
    requires IsHistory(e, hist) && n < next && n < |hist| && Fed(e, hist, x, next)
    requires l.pending.Some? ==> IsPast(l.pending, hist[n].sequence)
    ensures var p := Step(e, w, l, x);
      && (PendingOf(p).Some? ==> IsPast(PendingOf(p), hist[n].sequence))
      && (Clears(e, x) ==> p.Over? && p.w.cursor == None)
      && (Writes(e, l, x) ==> IsPast(p.w.cursor, hist[n].sequence))
      && (!Clears(e, x) && !Writes(e, l, x) ==> p.w.cursor == w.cursor)
  {
    var j := FedJudgement(e, hist, x, next);
    assert IsUnnumbered(j) || (hist[n].sequence < hist[next].sequence && IsAbout(j, hist[next].sequence));
    TurnAfter(e, w, l, x, j, hist[n].sequence);
  }

  lemma {:induction false} ConsumeAfter(
    e: Setup, hist: seq<Sent>, w: World, l: Local, inputs: seq<Input>, i: nat, n: nat, next: nat)
    requires IsHistory(e, hist) && i <= |inputs| && n < next && n < |hist| && Feeds(e, hist, inputs, i, next)
    requires l.pending.Some? ==> IsPast(l.pending, hist[n].sequence)
    ensures var cursor := Consume(e, w, l, inputs, i).0.cursor;
      if EverClears(e, w, l, inputs, i) then cursor == None
      else if EverWrites(e, w, l, inputs, i) || IsPast(w.cursor, hist[n].sequence) then IsPast(cursor, hist[n].sequence)
      else cursor == w.cursor
    decreases |inputs| - i
  {
    if i < |inputs| {
      StepAfter(e, hist, w, l, inputs[i], n, next);
      var p := Step(e, w, l, inputs[i]);
      if p.Going? {
        ConsumeAfter(e, hist, p.w, p.l, inputs, i + 1, n, NextAfter(inputs[i], next));
      }
    }
  }

  /** The sink refuses what this turn's frame hands it. */
  predicate IsHeld(e: Setup, x: Input) {
    x.Message? && JudgementOf(e, x).Hand? && !x.answers.sinkAccepts
  }

  lemma HeldTurn(e: Setup, w: World, l: Local, x: Input, j: Judgement, p: Progress)
    requires x.Message? && j.Hand? && !x.answers.sinkAccepts && p == Turn(e, w, l, x, j)
    ensures p.Going? && p.w.cursor == w.cursor && p.l.pending == None
  {
  }

  /** Where the next connection resumes tells whether frame `n` is sent again. */
  lemma ResumesBefore(e: Setup, hist: seq<Sent>, w: World, n: nat, feed: Feed, a: Attempt)
    requires IsHistory(e, hist) && n < |hist| && n < feed.sent
    requires a.connected && Honest(e, hist, w, feed, a)
    ensures StartsAt(hist, w, a) <= n <==> a.loadOk && w.cursor.Some? && w.cursor.value < hist[n].sequence
  {
    if w.cursor.Some? {
      FirstAfterIs(hist, w.cursor.value, n);
    }
  }

  lemma FirstAfterIs(hist: seq<Sent>, cursor: int, n: nat)
    requires Ascends(hist) && n < |hist|
    ensures FirstAfter(hist, cursor) <= n <==> cursor < hist[n].sequence
  {
    var from := FirstAfter(hist, cursor);
    assert from > n ==> hist[n].sequence <= hist[from - 1].sequence <= cursor;
  }

  /** After a refusal the cursor is forgotten, or ends past the refused frame, or is where it was. */
  lemma CursorAfterRefusal(
    e: Setup, hist: seq<Sent>, w: World, l: Local, inputs: seq<Input>, i: nat, start: nat, n: nat, w': World, l': Local)
    requires IsHistory(e, hist) && Behind(hist, w, l.pending, start, n)
    requires i < |inputs| && Feeds(e, hist, inputs, i, n)
    requires inputs[i].Message? && inputs[i].origin.Some? && IsHeld(e, inputs[i])
    requires Step(e, w, l, inputs[i]) == Going(w', l')
    ensures n < |hist| && (w.cursor.Some? ==> w.cursor.value < hist[n].sequence)
    ensures var cursor := Consume(e, w', l', inputs, i + 1).0.cursor;
      if EverClears(e, w', l', inputs, i + 1) then cursor == None
      else if EverWrites(e, w', l', inputs, i + 1) then IsPast(cursor, hist[n].sequence)
      else cursor == w.cursor
  {
    HeldTurn(e, w, l, inputs[i], JudgementOf(e, inputs[i]), Going(w', l'));
    ConsumeAfter(e, hist, w', l', inputs, i + 1, n, n + 1);
  }

  /**
   * The sink's contract says a refused message is seen again on the next reconnect. It is exactly
   * when a cursor was stored before it and can be loaded again, and no later turn of the same
   * connection writes one, nor clears it on a notice: the connection drops what was coalesced but
   * keeps reading, so anything it then writes is past the refused message.
   */
  lemma RefusedIsResentIff(
    e: Setup, hist: seq<Sent>, w: World, l: Local, inputs: seq<Input>, i: nat, start: nat, n: nat,
    w': World, l': Local, last: World, feed: Feed, a: Attempt)
    requires IsHistory(e, hist) && Behind(hist, w, l.pending, start, n)
    requires i < |inputs| && Feeds(e, hist, inputs, i, n)
    requires inputs[i].Message? && inputs[i].origin.Some? && IsHeld(e, inputs[i])
    requires Step(e, w, l, inputs[i]) == Going(w', l') && last == Consume(e, w', l', inputs, i + 1).0
    requires a.connected && n < feed.sent && Honest(e, hist, last, feed, a)
    ensures StartsAt(hist, last, a) <= n <==>
      && a.loadOk && w.cursor.Some?
      && !EverWrites(e, w', l', inputs, i + 1) && !EverClears(e, w', l', inputs, i + 1)
  {
    CursorAfterRefusal(e, hist, w, l, inputs, i, start, n, w', l');
    ResumesBefore(e, hist, last, n, feed, a);
  }

  // ---- one input that shows it ----

  const SOME_DID: Utf8Text := Ascii("did:plc:a")

  function SomeIdentity(n: int): IdentityPayload { IdentityPayload(n, SOME_DID, None, None) }

  /** The bytes of an `#identity` frame numbered `n`. */
  function IdentityFrame(n: int): seq<byte> {
    FrameEvents.FrameBytes(Event.Identity(SomeIdentity(n)), Frames.Present(FrameEvents.IdentityFields(SomeIdentity(n))))
  }

  lemma IdentityFrameHands(e: Setup, n: int, key: Option<Key.KeyData>)
    requires FitsI64(n)
    ensures Judge(e, IdentityFrame(n), key) == Hand(IngestMessage.Identity(SomeIdentity(n)), n)
    ensures Bears(e, IdentityFrame(n), n)
  {
    AsciiIsUtf8("did:plc:a");
    var f := FrameEvents.IdentityFrameReads(e.parseCid, SomeIdentity(n));
  }

  function SinkSays(accepts: bool): Answers { Answers(None, accepts, true, true, true, 0) }

  function TwoFrames(f: seq<byte>, g: seq<byte>): seq<Sent> { [Sent(1, f), Sent(2, g)] }

  /** The sink refuses the first frame and takes the second, over one connection. */
  function RefusedThenTaken(f: seq<byte>, g: seq<byte>): seq<Input> {
    [Message(f, Some(0), SinkSays(false)), Message(g, Some(1), SinkSays(true))]
  }

  lemma TwoFramesAreAHistory(e: Setup, f: seq<byte>, g: seq<byte>)
    requires Bears(e, f, 1) && Bears(e, g, 2)
    ensures IsHistory(e, TwoFrames(f, g))
    ensures FirstAfter(TwoFrames(f, g), 0) == 0 && FirstAfter(TwoFrames(f, g), 2) == 2
  {
    var hist := TwoFrames(f, g);
    assert hist[..1] == [hist[0]] && hist[..1][..0] == [];
    assert FirstAfter(hist[..1], 0) == 0;
  }

  lemma RefusedTurn(e: Setup, w: World, l: Local, x: Input, m: IngestMessage, n: int)
    requires x.Message? && JudgementOf(e, x) == Hand(m, n) && x.answers == SinkSays(false)
    ensures var p := Step(e, w, l, x);
      p.Going? && p.w.cursor == w.cursor && p.l.pending == None && p.w.handed == w.handed + [Handing(m, false, None)]
  {
  }

  lemma TakenTurn(e: Setup, w: World, l: Local, x: Input, m: IngestMessage, n: int)
    requires x.Message? && JudgementOf(e, x) == Hand(m, n) && x.answers == SinkSays(true)
    ensures var p := Step(e, w, l, x);
      p.Going? && p.w.cursor == Some(n) && p.w.handed == w.handed + [Handing(m, true, None)]
  {
  }

  lemma RefusedThenTakenEnds(e: Setup, f: seq<byte>, g: seq<byte>, m: IngestMessage, n: IngestMessage)
    requires Judge(e, f, None) == Hand(m, 1) && Judge(e, g, None) == Hand(n, 2)
    ensures Feeds(e, TwoFrames(f, g), RefusedThenTaken(f, g), 0, 0)
    ensures var w := Consume(e, World(Some(0), [], []), Local(None, 0), RefusedThenTaken(f, g), 0).0;
      w.cursor == Some(2) && w.handed == [Handing(m, false, None), Handing(n, true, None)]
  {
    var inputs, w, l := RefusedThenTaken(f, g), World(Some(0), [], []), Local(None, 0);
    RefusedTurn(e, w, l, inputs[0], m, 1);
    var p := Step(e, w, l, inputs[0]);
    TakenTurn(e, p.w, p.l, inputs[1], n, 2);
    var q := Step(e, p.w, p.l, inputs[1]);
    assert Consume(e, q.w, q.l, inputs, 2).0 == q.w;
    assert Feeds(e, TwoFrames(f, g), inputs, 2, 2);
  }

  /**
   * Two frames over a connection that resumed from cursor 0, the first refused: the cursor ends at
   * 2, and a server asked to resume from there never sends the first again, though nothing applied it.
   */
  lemma RefusedThenDeliveredIsLost(e: Setup)
    ensures var f, g := IdentityFrame(1), IdentityFrame(2);
      var hist, inputs := TwoFrames(f, g), RefusedThenTaken(f, g);
      var w := Consume(e, World(Some(0), [], []), Local(None, 0), inputs, 0).0;
      && IsHistory(e, hist) && Feeds(e, hist, inputs, 0, FirstAfter(hist, 0))
      && w.cursor == Some(2) && FirstAfter(hist, 2) == 2
      && w.handed == [
        Handing(IngestMessage.Identity(SomeIdentity(1)), false, None),
        Handing(IngestMessage.Identity(SomeIdentity(2)), true, None)]
  {
    var f, g := IdentityFrame(1), IdentityFrame(2);
    IdentityFrameHands(e, 1, None);
    IdentityFrameHands(e, 2, None);
    TwoFramesAreAHistory(e, f, g);
    RefusedThenTakenEnds(e, f, g, IngestMessage.Identity(SomeIdentity(1)), IngestMessage.Identity(SomeIdentity(2)));
  }
}
