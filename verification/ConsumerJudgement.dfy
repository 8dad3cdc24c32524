/** What a frame asks of the consumer, told from what the frame decodes to and nothing else. */
module ConsumerJudgement {
  import opened Common
  import opened Wire
  import opened Consumer
  import Key
  import Verify

  /** The frame splits as `f` and decodes to the event. */
  predicate Carries(e: Setup, frame: seq<byte>, f: Frame, event: Event) {
    Split(e.parseCid, frame) == Ok(f) && EventOf(e.parseCid, f) == Ok(event)
  }

  predicate Decodes(e: Setup, frame: seq<byte>) {
    Split(e.parseCid, frame).Ok? && EventOf(e.parseCid, Split(e.parseCid, frame).value).Ok?
  }

  /** What a decoded frame asks for: nothing but a bad commit, a notice or an unknown kind is passed over. */
  lemma JudgedEvent(e: Setup, frame: seq<byte>, f: Frame, event: Event, key: Option<Key.KeyData>)
    requires Carries(e, frame, f, event)
    ensures var j := Judge(e, frame, key);
      match event
      case Commit(p) =>
        if IsGood(e, f, p, key) then j == Hand(IngestMessage.Commit(p, CommitBlocks(e.parseCid, f).value), p.sequence)
        else j == Pass(Some(p.sequence))
      case Sync(p) => j == Hand(Resync(p), p.sequence)
      case Identity(p) => j == Hand(IngestMessage.Identity(p), p.sequence)
      case Account(p) => j == Hand(IngestMessage.Account(p), p.sequence)
      case Info(p) => j == if p.name == Ascii("OutdatedCursor") then Lost(p) else Pass(None)
      case Error(p) => j == Stop(p)
      case Unknown(_) => j == Pass(None)
  {
    if event.Commit? {
      JudgedCommit(e, f, event.envelope, key);
    }
  }

  lemma JudgedUndecodable(e: Setup, frame: seq<byte>, key: Option<Key.KeyData>)
    requires !Decodes(e, frame)
    ensures Judge(e, frame, key) == Pass(None)
  {
  }

  // ---- messages, and frames that hold none ----

  /** The message is what the frame decodes to. */
  predicate IsMessageOf(e: Setup, frame: seq<byte>, message: IngestMessage) {
    Decodes(e, frame) &&
    var f := Split(e.parseCid, frame).value;
    match EventOf(e.parseCid, f).value
    case Commit(p) =>
      CommitBlocks(e.parseCid, f).Ok? && message == IngestMessage.Commit(p, CommitBlocks(e.parseCid, f).value)
    case Sync(p) => message == Resync(p)
    case Identity(p) => message == IngestMessage.Identity(p)
    case Account(p) => message == IngestMessage.Account(p)
    case _ => false
  }

  /**
   * There is nothing in the frame to apply: it does not decode, its kind is unknown, it only informs,
   * or it is a commit that touches nothing tracked, whose blocks cannot be read, or that fails
   * verification with this key.
   */
  ghost predicate HoldsNothing(e: Setup, frame: seq<byte>, key: Option<Key.KeyData>) {
    Decodes(e, frame) ==>
      var f := Split(e.parseCid, frame).value;
      match EventOf(e.parseCid, f).value
      case Commit(p) => !IsGood(e, f, p, key)
      case Info(p) => p.name != Ascii("OutdatedCursor")
      case Unknown(_) => true
      case _ => false
  }

  /** Frames are passed over exactly when they hold nothing, and handed on as what they decode to. */
  lemma JudgesExactly(e: Setup, frame: seq<byte>, key: Option<Key.KeyData>)
    ensures Judge(e, frame, key).Pass? <==> HoldsNothing(e, frame, key)
    ensures Judge(e, frame, key).Hand? ==> IsMessageOf(e, frame, Judge(e, frame, key).message)
  {
    if Decodes(e, frame) {
      var f := Split(e.parseCid, frame).value;
      JudgedEvent(e, frame, f, EventOf(e.parseCid, f).value, key);
    } else {
      JudgedUndecodable(e, frame, key);
    }
  }
}
