/** The cursor stays behind what was dealt with, in every run against any history. */
module ConsumerSafety {
  import opened Common
  import opened Wire
  import opened Consumer
  import Key

  // ---- the server ----

  /** One numbered frame of the server's history. */
  datatype Sent = Sent(sequence: int, frame: seq<byte>)

  /** A frame that decodes to a numbered event bears the number `n`; it is not a notice or an error. */
  predicate Bears(e: Setup, frame: seq<byte>, n: int) {
    match Split(e.parseCid, frame)
    case Err(_) => true
    case Ok(f) =>
      match EventOf(e.parseCid, f)
      case Err(_) => true
      case Ok(Commit(p)) => p.sequence == n
      case Ok(Sync(p)) => p.sequence == n
      case Ok(Identity(p)) => p.sequence == n
      case Ok(Account(p)) => p.sequence == n
      case Ok(Unknown(_)) => true
      case Ok(_) => false
  }

  /** A frame outside the history: nothing numbered decodes from it. */
  predicate Unnumbered(e: Setup, frame: seq<byte>) {
    match Split(e.parseCid, frame)
    case Err(_) => true
    case Ok(f) =>
      match EventOf(e.parseCid, f)
      case Err(_) => true
      case Ok(event) => event.Unknown? || event.Info? || event.Error?
  }

  predicate Ascends(hist: seq<Sent>) {
    forall i, j | 0 <= i < j < |hist| :: hist[i].sequence < hist[j].sequence
  }

  ghost predicate IsHistory(e: Setup, hist: seq<Sent>) {
    && Ascends(hist)
    && (forall i | 0 <= i < |hist| :: Bears(e, hist[i].frame, hist[i].sequence))
  }

  /** The first frame after a cursor. */
  function FirstAfter(hist: seq<Sent>, cursor: int): (n: nat)
    ensures n <= |hist|
    ensures n > 0 ==> hist[n - 1].sequence <= cursor
    ensures forall i | n <= i < |hist| :: cursor < hist[i].sequence
  {
    if hist == [] then 0
    else if hist[|hist| - 1].sequence <= cursor then |hist|
    else FirstAfter(hist[..|hist| - 1], cursor)
  }

  /** From input `i` on, the numbered frames are those of the history from `next` on, none left out. */
  predicate Feeds(e: Setup, hist: seq<Sent>, inputs: seq<Input>, i: nat, next: nat)
    requires i <= |inputs|
    decreases |inputs| - i
  {
    i == |inputs|
    || (Fed(e, hist, inputs[i], next) && Feeds(e, hist, inputs, i + 1, NextAfter(inputs[i], next)))
  }

  predicate Fed(e: Setup, hist: seq<Sent>, x: Input, next: nat) {
    x.Message? ==>
      match x.origin
      case Some(k) => k == next && k < |hist| && x.frame == hist[k].frame
      case None => Unnumbered(e, x.frame)
  }

  function NextAfter(x: Input, next: nat): nat {
    if x.Message? && x.origin.Some? then next + 1 else next
  }

  /** How far the server gets with these inputs. */
  function FedTo(inputs: seq<Input>, i: nat, next: nat): (n: nat)
    requires i <= |inputs|
    ensures n >= next
    decreases |inputs| - i
  {
    if i == |inputs| then next else FedTo(inputs, i + 1, NextAfter(inputs[i], next))
  }

  /** Where a connection starts: after the requested cursor, or at the live edge. */
  function StartsAt(hist: seq<Sent>, w: World, a: Attempt): nat {
    match Requested(w, a)
    case Some(cursor) => FirstAfter(hist, cursor)
    case None => a.liveEdge
  }

  /** Where the last connection without a cursor began, and how far the server has ever got. */
  datatype Feed = Feed(start: nat, sent: nat)

  function FeedAfter(hist: seq<Sent>, w: World, feed: Feed, a: Attempt): Feed {
    if !a.connected then feed
    else
      var from := StartsAt(hist, w, a);
      Feed(if Requested(w, a).None? then from else feed.start, Max(feed.sent, FedTo(a.inputs, 0, from)))
  }

  /** The server keeps to its history; its live edge is never before what it has already sent. */
  predicate Honest(e: Setup, hist: seq<Sent>, w: World, feed: Feed, a: Attempt) {
    a.connected ==>
      && Feeds(e, hist, a.inputs, 0, StartsAt(hist, w, a))
      && (Requested(w, a).None? ==> a.liveEdge >= feed.sent)
  }

  // ---- what the audit says ----

  /** Some pass over frame `k` came to something. */
  ghost predicate Answered(w: World, k: nat) {
    exists x | x in w.audit :: x.index == k
  }

  // ---- what a connection keeps ----

  /**
   * With the server about to send frame `next`: everything from `start` up to it is answered, and
   * neither the stored cursor nor the coalesced one has reached it.
   */
  ghost predicate Behind(hist: seq<Sent>, w: World, pending: Option<int>, start: nat, next: nat) {
    && (forall j | start <= j < next :: Answered(w, j))
    && (forall j | next <= j < |hist| :: w.cursor.Some? ==> w.cursor.value < hist[j].sequence)
    && (forall j | next <= j < |hist| :: pending.Some? ==> pending.value < hist[j].sequence)
    && (w.cursor.Some? && pending.Some? ==> w.cursor.value < pending.value)
  }

  /** The stored cursor did not go back; it is only ever forgotten by a notice that it was refused. */
  predicate Advances(w: World, w': World) {
    w.cursor.Some? ==> w'.cursor.Some? && w.cursor.value <= w'.cursor.value
  }

  predicate IsCursorNotice(e: Setup, x: Input) { JudgementOf(e, x).Lost? }

  function PendingOf(p: Progress): Option<int> {
    match p case Going(_, l) => l.pending case Over(_, _) => None
  }

  /** What the frame numbered `n` can ask for. */
  predicate IsAbout(j: Judgement, n: int) {
    (j.Pass? && (j.seen.Some? ==> j.seen.value == n)) || (j.Hand? && j.sequence == n)
  }

  /** What a frame outside the history can ask for. */
  predicate IsUnnumbered(j: Judgement) { j == Pass(None) || j.Lost? || j.Stop? }

  lemma NumberedJudgement(e: Setup, frame: seq<byte>, n: int, key: Option<Key.KeyData>)
    requires Bears(e, frame, n)
    ensures IsAbout(Judge(e, frame, key), n)
  {
  }

  lemma UnnumberedJudgement(e: Setup, frame: seq<byte>, key: Option<Key.KeyData>)
    requires Unnumbered(e, frame)
    ensures IsUnnumbered(Judge(e, frame, key))
  {
    match Split(e.parseCid, frame) {
      case Err(_) =>
      case Ok(f) =>
        match EventOf(e.parseCid, f) {
          case Err(_) =>
          case Ok(event) => assert IsUnnumbered(JudgeEvent(e, f, event, key));
        }
    }
  }

  lemma FlushKeeps(hist: seq<Sent>, w: World, pending: Option<int>, storeOk: bool, start: nat, next: nat)
    requires Behind(hist, w, pending, start, next)
    ensures Behind(hist, Flushed(w, pending, storeOk), None, start, next)
    ensures Advances(w, Flushed(w, pending, storeOk))
  {
    forall j | start <= j < next ensures Answered(Flushed(w, pending, storeOk), j) {
      assert Answered(w, j);
    }
  }

  lemma HandingKeeps(hist: seq<Sent>, w: World, pending: Option<int>, start: nat, next: nat, w': World)
    requires Behind(hist, w, pending, start, next)
    requires w'.audit == w.audit && (w'.cursor == w.cursor || w'.cursor == None)
    ensures Behind(hist, w', None, start, next)
  {
    forall j | start <= j < next ensures Answered(w', j) {
      assert Answered(w, j);
    }
  }

  /** Answering the next frame lets the cursor move up to it, and no further. */
  lemma AnswerKeeps(
    hist: seq<Sent>, w: World, pending: Option<int>, start: nat, next: nat, w': World, seen: Option<int>)
    requires Behind(hist, w, pending, start, next) && next < |hist|
    requires Ascends(hist)
    requires w'.cursor == w.cursor && Answered(w', next) && forall x | x in w.audit :: x in w'.audit
    requires seen == pending || seen == None || seen == Some(hist[next].sequence)
    ensures Behind(hist, w', seen, start, next + 1)
  {
    forall j | start <= j < next + 1 ensures Answered(w', j) {
      assert j < next ==> Answered(w, j);
    }
    forall j | next + 1 <= j < |hist| ensures hist[next].sequence < hist[j].sequence {
    }
  }

  lemma NumberedTurn(e: Setup, hist: seq<Sent>, w: World, l: Local, x: Input, j: Judgement, start: nat, next: nat)
    requires Ascends(hist) && Behind(hist, w, l.pending, start, next)
    requires x.Message? && x.origin == Some(next) && next < |hist| && IsAbout(j, hist[next].sequence)
    ensures var p := Turn(e, w, l, x, j);
      p.Going? && Behind(hist, p.w, p.l.pending, start, next + 1) && Advances(w, p.w)
  {
    var a := x.answers;
    var (acted, outcome) := Acted(w, j, a);
    var audited := Audited(acted, x.origin, a.key, outcome);
    var entry := Entry(next, VerdictOf(outcome).value, a.key);
    assert audited.audit == w.audit + [entry] && entry in audited.audit;
    var seen := match outcome
      case Delivered(n) => Some(n)
      case Skipped(s) => if s.Some? then s else l.pending
      case _ => None;
    AnswerKeeps(hist, w, l.pending, start, next, audited, seen);
    FlushKeeps(hist, audited, seen, a.storeOk, start, next + 1);
  }

  lemma UnnumberedMessageTurn(
    e: Setup, hist: seq<Sent>, w: World, l: Local, x: Input, j: Judgement, start: nat, next: nat)
    requires Behind(hist, w, l.pending, start, next)
    requires x.Message? && x.origin == None && IsUnnumbered(j)
    ensures var p := Turn(e, w, l, x, j);
      Behind(hist, p.w, PendingOf(p), start, next) && (!j.Lost? ==> Advances(w, p.w))
  {
    FlushKeeps(hist, w, l.pending, x.answers.storeOk, start, next);
    HandingKeeps(hist, w, l.pending, start, next, Acted(w, j, x.answers).0);
  }

  lemma UnnumberedTurn(e: Setup, hist: seq<Sent>, w: World, l: Local, x: Input, j: Judgement, start: nat, next: nat)
    requires Behind(hist, w, l.pending, start, next)
    requires x.Message? ==> x.origin == None && IsUnnumbered(j)
    ensures var p := Turn(e, w, l, x, j);
      Behind(hist, p.w, PendingOf(p), start, next) && (!j.Lost? ==> Advances(w, p.w))
  {
    match x
    case ShutdownChanged(_, storeOk) => FlushKeeps(hist, w, l.pending, storeOk, start, next);
    case Closed(storeOk) => FlushKeeps(hist, w, l.pending, storeOk, start, next);
    case Message(_, _, _) => UnnumberedMessageTurn(e, hist, w, l, x, j, start, next);
    case _ =>
  }

  /** What the next input fed asks for. */
  lemma FedJudgement(e: Setup, hist: seq<Sent>, x: Input, next: nat) returns (j: Judgement)
    requires IsHistory(e, hist) && Fed(e, hist, x, next)
    ensures j == JudgementOf(e, x)
    ensures x.Message? && x.origin.Some? ==> IsAbout(j, hist[next].sequence)
    ensures !(x.Message? && x.origin.Some?) ==> IsUnnumbered(j)
  {
    j := JudgementOf(e, x);
    if x.Message? {
      match x.origin
      case Some(_) => NumberedJudgement(e, x.frame, hist[next].sequence, x.answers.key);
      case None => UnnumberedJudgement(e, x.frame, x.answers.key);
    }
  }

  lemma StepKeeps(e: Setup, hist: seq<Sent>, w: World, l: Local, x: Input, start: nat, next: nat)
    requires IsHistory(e, hist) && Behind(hist, w, l.pending, start, next) && Fed(e, hist, x, next)
    ensures var p := Step(e, w, l, x);
      && Behind(hist, p.w, PendingOf(p), start, NextAfter(x, next))
      && (!IsCursorNotice(e, x) ==> Advances(w, p.w))
  {
    var j := FedJudgement(e, hist, x, next);
    if x.Message? && x.origin.Some? {
      NumberedTurn(e, hist, w, l, x, j, start, next);
    } else {
      UnnumberedTurn(e, hist, w, l, x, j, start, next);
    }
  }

  predicate NoCursorNotice(e: Setup, inputs: seq<Input>) {
    forall i | 0 <= i < |inputs| :: !IsCursorNotice(e, inputs[i])
  }

  lemma {:induction false} ConsumeKeeps(
    e: Setup, hist: seq<Sent>, w: World, l: Local, inputs: seq<Input>, i: nat, start: nat,
    next: nat) returns (reached: nat)
    requires i <= |inputs| && IsHistory(e, hist) && Behind(hist, w, l.pending, start, next)
    requires Feeds(e, hist, inputs, i, next)
    ensures next <= reached <= FedTo(inputs, i, next)
    ensures Behind(hist, Consume(e, w, l, inputs, i).0, None, start, reached)
    ensures NoCursorNotice(e, inputs) ==> Advances(w, Consume(e, w, l, inputs, i).0)
    decreases |inputs| - i
  {
    if i == |inputs| {
      reached := next;
    } else {
      var p := Step(e, w, l, inputs[i]);
      StepKeeps(e, hist, w, l, inputs[i], start, next);
      reached := NextAfter(inputs[i], next);
      if p.Going? {
        reached := ConsumeKeeps(e, hist, p.w, p.l, inputs, i + 1, start, reached);
      }
    }
  }

  // ---- what every connection keeps ----

  /** Every frame from `start` on that the stored cursor has passed is answered. */
  ghost predicate CursorIsBehind(hist: seq<Sent>, w: World, start: nat) {
    w.cursor.Some? ==> forall j | start <= j < |hist| && hist[j].sequence <= w.cursor.value :: Answered(w, j)
  }

  ghost predicate Safe(hist: seq<Sent>, w: World, feed: Feed) {
    && CursorIsBehind(hist, w, feed.start)
    && (w.cursor.Some? ==> forall j | feed.sent <= j < |hist| :: w.cursor.value < hist[j].sequence)
  }

  lemma ConnectionKeeps(e: Setup, hist: seq<Sent>, w: World, feed: Feed, a: Attempt)
    requires IsHistory(e, hist) && Safe(hist, w, feed) && Honest(e, hist, w, feed, a)
    ensures Safe(hist, Connection(e, w, a).0, FeedAfter(hist, w, feed, a))
    ensures NoCursorNotice(e, a.inputs) ==> Advances(w, Connection(e, w, a).0)
  {
    if a.connected {
      var from := StartsAt(hist, w, a);
      var feed' := FeedAfter(hist, w, feed, a);
      if w.cursor.Some? && Requested(w, a).Some? {
        forall j | feed'.start <= j < from ensures Answered(w, j) {
          assert j <= from - 1 && hist[j].sequence <= hist[from - 1].sequence;
        }
      }
      assert Behind(hist, w, None, feed'.start, from);
      var reached := ConsumeKeeps(e, hist, w, Local(None, a.connectedAt), a.inputs, 0, feed'.start, from);
    }
  }

  /** Every connection made, through any number of restarts. */
  function Connections(e: Setup, w: World, attempts: seq<Attempt>): World
    decreases |attempts|
  {
    if attempts == [] then w else Connections(e, Connection(e, w, attempts[0]).0, attempts[1..])
  }

  function FeedAfterAll(e: Setup, hist: seq<Sent>, w: World, feed: Feed, attempts: seq<Attempt>): Feed
    decreases |attempts|
  {
    if attempts == [] then feed
    else FeedAfterAll(e, hist, Connection(e, w, attempts[0]).0, FeedAfter(hist, w, feed, attempts[0]), attempts[1..])
  }

  predicate AllHonest(e: Setup, hist: seq<Sent>, w: World, feed: Feed, attempts: seq<Attempt>)
    decreases |attempts|
  {
    attempts == []
    || (Honest(e, hist, w, feed, attempts[0])
      && AllHonest(e, hist, Connection(e, w, attempts[0]).0, FeedAfter(hist, w, feed, attempts[0]), attempts[1..]))
  }

  lemma {:induction false} ConnectionsKeep(e: Setup, hist: seq<Sent>, w: World, feed: Feed, attempts: seq<Attempt>)
    requires IsHistory(e, hist) && Safe(hist, w, feed) && AllHonest(e, hist, w, feed, attempts)
    ensures Safe(hist, Connections(e, w, attempts), FeedAfterAll(e, hist, w, feed, attempts))
    ensures (forall i | 0 <= i < |attempts| :: NoCursorNotice(e, attempts[i].inputs)) ==>
      Advances(w, Connections(e, w, attempts))
    decreases |attempts|
  {
    if attempts != [] {
      ConnectionKeeps(e, hist, w, feed, attempts[0]);
      ConnectionsKeep(e, hist, Connection(e, w, attempts[0]).0, FeedAfter(hist, w, feed, attempts[0]), attempts[1..]);
    }
  }
}
