/** What holds of whole lives of a consumer: any number of runs, each of any number of connections. */
module ConsumerRuns {
  import opened Common
  import opened Wire
  import opened Consumer
  import opened ConsumerSafety
  import opened ConsumerJudgement
  import Key
  import Verify

  // ---- the audit and the sink's log tell the truth ----

  /** A frame's entry is what its judgement comes to under the key resolved for it. */
  ghost predicate EntryHolds(e: Setup, hist: seq<Sent>, handed: seq<Handing>, x: Entry) {
    x.index < |hist| &&
    var j := Judge(e, hist[x.index].frame, x.key);
    match x.verdict
    case Applied => j.Hand? && j.sequence == hist[x.index].sequence && Handing(j.message, true, x.key) in handed
    case Refused => j.Hand? && j.sequence == hist[x.index].sequence && Handing(j.message, false, x.key) in handed
    case Passed => j.Pass?
  }

  ghost predicate AuditHolds(e: Setup, hist: seq<Sent>, w: World) {
    forall x | x in w.audit :: EntryHolds(e, hist, w.handed, x)
  }

  /** A commit given to the sink touches a tracked collection and passed verification. */
  predicate IsChecked(e: Setup, h: Handing) {
    h.message.Commit? ==>
      && MatchesTracked(h.message.envelope, e.config.collections)
      && Verify.Verified(
           e.checks, e.config.verification, h.message.envelope, h.message.blocks, h.key, e.config.collections).Ok?
  }

  ghost predicate AllChecked(e: Setup, w: World) {
    forall h | h in w.handed :: IsChecked(e, h)
  }

  lemma TurnLogs(e: Setup, w: World, l: Local, x: Input, j: Judgement)
    ensures x.Message? ==>
      var (acted, outcome) := Acted(w, j, x.answers);
      && Turn(e, w, l, x, j).w.handed == acted.handed
      && Turn(e, w, l, x, j).w.audit == Audited(acted, x.origin, x.answers.key, outcome).audit
    ensures !x.Message? ==> Turn(e, w, l, x, j).w.handed == w.handed && Turn(e, w, l, x, j).w.audit == w.audit
  {
  }

  lemma JudgedIsChecked(e: Setup, frame: seq<byte>, key: Option<Key.KeyData>, j: Judgement, accepted: bool)
    requires j == Judge(e, frame, key) && j.Hand?
    ensures IsChecked(e, Handing(j.message, accepted, key))
  {
    var f := Split(e.parseCid, frame).value;
    match EventOf(e.parseCid, f).value
    case Commit(envelope) => JudgedCommitIsChecked(e, f, envelope, key, j, accepted);
    case _ =>
  }

  lemma JudgedCommitIsChecked(
    e: Setup, f: Frame, envelope: CommitEnvelope, key: Option<Key.KeyData>, j: Judgement, accepted: bool)
    requires j == JudgeCommit(e, f, envelope, key) && j.Hand?
    ensures IsChecked(e, Handing(j.message, accepted, key))
  {
  }

  lemma TurnKeepsChecked(e: Setup, w: World, l: Local, x: Input, j: Judgement)
    requires AllChecked(e, w)
    requires x.Message? && j.Hand? ==> IsChecked(e, Handing(j.message, x.answers.sinkAccepts, x.answers.key))
    ensures AllChecked(e, Turn(e, w, l, x, j).w)
  {
    TurnLogs(e, w, l, x, j);
  }

  lemma StepKeepsChecked(e: Setup, w: World, l: Local, x: Input)
    requires AllChecked(e, w)
    ensures AllChecked(e, Step(e, w, l, x).w)
  {
    var j := JudgementOf(e, x);
    if x.Message? && j.Hand? {
      JudgedIsChecked(e, x.frame, x.answers.key, j, x.answers.sinkAccepts);
    }
    TurnKeepsChecked(e, w, l, x, j);
  }

  lemma {:induction false} ConsumeKeepsChecked(e: Setup, w: World, l: Local, inputs: seq<Input>, i: nat)
    requires i <= |inputs| && AllChecked(e, w)
    ensures AllChecked(e, Consume(e, w, l, inputs, i).0)
    decreases |inputs| - i
  {
    if i < |inputs| {
      StepKeepsChecked(e, w, l, inputs[i]);
      var p := Step(e, w, l, inputs[i]);
      if p.Going? {
        ConsumeKeepsChecked(e, p.w, p.l, inputs, i + 1);
      }
    }
  }

  lemma {:induction false} ConnectionsKeepChecked(e: Setup, w: World, attempts: seq<Attempt>)
    requires AllChecked(e, w)
    ensures AllChecked(e, Connections(e, w, attempts))
    decreases |attempts|
  {
    if attempts != [] {
      var a := attempts[0];
      if a.connected {
        ConsumeKeepsChecked(e, w, Local(None, a.connectedAt), a.inputs, 0);
      }
      ConnectionsKeepChecked(e, Connection(e, w, a).0, attempts[1..]);
    }
  }

  lemma TurnKeepsAudit(e: Setup, hist: seq<Sent>, w: World, l: Local, x: Input, j: Judgement, next: nat)
    requires AuditHolds(e, hist, w) && Fed(e, hist, x, next) && j == JudgementOf(e, x)
    requires x.Message? && x.origin.Some? ==> IsAbout(j, hist[next].sequence)
    ensures AuditHolds(e, hist, Turn(e, w, l, x, j).w)
  {
    TurnLogs(e, w, l, x, j);
    var w' := Turn(e, w, l, x, j).w;
    if x.Message? && j.Hand? {
      assert Handing(j.message, x.answers.sinkAccepts, x.answers.key) in w'.handed;
    }
    assert forall h | h in w.handed :: h in w'.handed;
    forall y | y in w'.audit ensures EntryHolds(e, hist, w'.handed, y) {
      assert y in w.audit ==> EntryHolds(e, hist, w.handed, y);
    }
  }

  lemma StepKeepsAudit(e: Setup, hist: seq<Sent>, w: World, l: Local, x: Input, next: nat)
    requires IsHistory(e, hist) && AuditHolds(e, hist, w) && Fed(e, hist, x, next)
    ensures AuditHolds(e, hist, Step(e, w, l, x).w)
  {
    var j := FedJudgement(e, hist, x, next);
    TurnKeepsAudit(e, hist, w, l, x, j, next);
  }

  lemma {:induction false} ConsumeKeepsAudit(
    e: Setup, hist: seq<Sent>, w: World, l: Local, inputs: seq<Input>, i: nat, next: nat)
    requires i <= |inputs| && IsHistory(e, hist) && AuditHolds(e, hist, w) && Feeds(e, hist, inputs, i, next)
    ensures AuditHolds(e, hist, Consume(e, w, l, inputs, i).0)
    decreases |inputs| - i
  {
    if i < |inputs| {
      StepKeepsAudit(e, hist, w, l, inputs[i], next);
      var p := Step(e, w, l, inputs[i]);
      if p.Going? {
        ConsumeKeepsAudit(e, hist, p.w, p.l, inputs, i + 1, NextAfter(inputs[i], next));
      }
    }
  }

  lemma {:induction false} ConnectionsKeepAudit(e: Setup, hist: seq<Sent>, w: World, feed: Feed, attempts: seq<Attempt>)
    requires IsHistory(e, hist) && AuditHolds(e, hist, w) && AllHonest(e, hist, w, feed, attempts)
    ensures AuditHolds(e, hist, Connections(e, w, attempts))
    decreases |attempts|
  {
    if attempts != [] {
      var a := attempts[0];
      if a.connected {
        ConsumeKeepsAudit(e, hist, w, Local(None, a.connectedAt), a.inputs, 0, StartsAt(hist, w, a));
      }
      ConnectionsKeepAudit(e, hist, Connection(e, w, a).0, FeedAfter(hist, w, feed, a), attempts[1..]);
    }
  }

  // ---- lives ----

  /** A run's connections, in order. */
  function Made(e: Setup, w: World, attempts: seq<Attempt>, i: nat): seq<Attempt>
    requires i <= |attempts|
    decreases |attempts| - i
  {
    if i == |attempts| || attempts[i].stoppedBefore then []
    else
      var a := attempts[i];
      var (after, end) := Connection(e, w, a);
      if (end.StreamEnded? || end.ConnectionFailed?) && !a.stoppedAsleep then [a] + Made(e, after, attempts, i + 1)
      else [a]
  }

  /** The process is started again each time a run ends; only the store and the sink's writes remain. */
  function Life(e: Setup, w: World, runs: seq<seq<Attempt>>): World
    decreases |runs|
  {
    if runs == [] then w else Life(e, Ran(e, w, runs[0]).0, runs[1..])
  }

  function MadeInLife(e: Setup, w: World, runs: seq<seq<Attempt>>): seq<Attempt>
    decreases |runs|
  {
    if runs == [] then []
    else Made(e, w, runs[0], 0) + MadeInLife(e, Ran(e, w, runs[0]).0, runs[1..])
  }

  lemma {:induction false} ConnectionsConcat(e: Setup, w: World, a: seq<Attempt>, b: seq<Attempt>)
    ensures Connections(e, w, a + b) == Connections(e, Connections(e, w, a), b)
    decreases |a|
  {
    if a == [] {
      assert a + b == b;
    } else {
      assert (a + b)[1..] == a[1..] + b;
      ConnectionsConcat(e, Connection(e, w, a[0]).0, a[1..], b);
    }
  }

  lemma ConnectionsOfOne(e: Setup, w: World, a: Attempt)
    ensures Connections(e, w, [a]) == Connection(e, w, a).0
  {
    assert Connections(e, Connection(e, w, a).0, []) == Connection(e, w, a).0;
    assert [a][1..] == [];
  }

  lemma {:induction false} RunIsItsConnections(
    e: Setup, w: World, delay: nat, slept: seq<nat>, attempts: seq<Attempt>, i: nat)
    requires i <= |attempts|
    ensures RunFrom(e, w, delay, slept, attempts, i).0 == Connections(e, w, Made(e, w, attempts, i))
    decreases |attempts| - i
  {
    if i < |attempts| && !attempts[i].stoppedBefore {
      var a := attempts[i];
      var (after, end) := Connection(e, w, a);
      ConnectionsOfOne(e, w, a);
      if (end.StreamEnded? || end.ConnectionFailed?) && !a.stoppedAsleep {
        RunIsItsConnections(
          e, after, Min(delay * 2, e.config.maxReconnectDelay), slept + [Jittered(delay, a.draw)], attempts, i + 1);
        ConnectionsConcat(e, w, [a], Made(e, after, attempts, i + 1));
      }
    }
  }

  lemma {:induction false} LifeIsItsConnections(e: Setup, w: World, runs: seq<seq<Attempt>>)
    ensures Life(e, w, runs) == Connections(e, w, MadeInLife(e, w, runs))
    decreases |runs|
  {
    if runs != [] {
      RunIsItsConnections(e, w, e.config.initialReconnectDelay, [], runs[0], 0);
      var after := Ran(e, w, runs[0]).0;
      LifeIsItsConnections(e, after, runs[1..]);
      ConnectionsConcat(e, w, Made(e, w, runs[0], 0), MadeInLife(e, after, runs[1..]));
    }
  }

  // ---- at least once ----

  /** A life that begins with a stored cursor answers for nothing before it. */
  function FirstFeed(hist: seq<Sent>, w: World): Feed {
    match w.cursor
    case Some(cursor) => Feed(FirstAfter(hist, cursor), FirstAfter(hist, cursor))
    case None => Feed(0, 0)
  }

  /** Where the last connection made without a cursor began. */
  function Start(e: Setup, hist: seq<Sent>, w: World, runs: seq<seq<Attempt>>): nat {
    FeedAfterAll(e, hist, w, FirstFeed(hist, w), MadeInLife(e, w, runs)).start
  }

  ghost predicate HonestLife(e: Setup, hist: seq<Sent>, w: World, runs: seq<seq<Attempt>>) {
    IsHistory(e, hist) && AllHonest(e, hist, w, FirstFeed(hist, w), MadeInLife(e, w, runs))
  }

  lemma LifeIsSafe(e: Setup, hist: seq<Sent>, w: World, runs: seq<seq<Attempt>>)
    requires w.audit == [] && HonestLife(e, hist, w, runs)
    ensures CursorIsBehind(hist, Life(e, w, runs), Start(e, hist, w, runs))
    ensures AuditHolds(e, hist, Life(e, w, runs))
  {
    var made := MadeInLife(e, w, runs);
    LifeIsItsConnections(e, w, runs);
    FirstFeedIsSafe(e, hist, w);
    ConnectionsKeep(e, hist, w, FirstFeed(hist, w), made);
    ConnectionsKeepAudit(e, hist, w, FirstFeed(hist, w), made);
  }

  lemma FirstFeedIsSafe(e: Setup, hist: seq<Sent>, w: World)
    requires IsHistory(e, hist)
    ensures Safe(hist, w, FirstFeed(hist, w))
  {
  }

  /** The message the frame decodes to is durably applied. */
  ghost predicate IsApplied(e: Setup, hist: seq<Sent>, w: World, k: nat) {
    k < |hist| && exists h | h in w.handed :: h.accepted && IsMessageOf(e, hist[k].frame, h.message)
  }

  /** The sink refused the message the frame decodes to in some pass. */
  ghost predicate WasRefused(e: Setup, hist: seq<Sent>, w: World, k: nat) {
    k < |hist| && exists h | h in w.handed :: !h.accepted && IsMessageOf(e, hist[k].frame, h.message)
  }

  /** In some pass, under the key resolved then, there was nothing in the frame to apply. */
  ghost predicate HeldNothing(e: Setup, hist: seq<Sent>, w: World, k: nat) {
    k < |hist| && exists x | x in w.audit :: x.index == k && HoldsNothing(e, hist[k].frame, x.key)
  }

  /**
   * At least once, over whole lives: whatever streams end, transports fail, processes are killed,
   * stores fail and flushes fall due, for every frame the stored cursor has passed, from where the
   * last cursor-less connection began, the sink applied what it decodes to, or there was nothing in
   * it to apply, or the sink refused it.
   */
  lemma AtLeastOnce(e: Setup, hist: seq<Sent>, w: World, runs: seq<seq<Attempt>>, k: nat)
    requires w.audit == [] && HonestLife(e, hist, w, runs)
    requires var w' := Life(e, w, runs);
      w'.cursor.Some? && Start(e, hist, w, runs) <= k < |hist| && hist[k].sequence <= w'.cursor.value
    ensures var w' := Life(e, w, runs);
      IsApplied(e, hist, w', k) || HeldNothing(e, hist, w', k) || WasRefused(e, hist, w', k)
  {
    LifeIsSafe(e, hist, w, runs);
    var w' := Life(e, w, runs);
    assert Answered(w', k);
    var x :| x in w'.audit && x.index == k;
    assert EntryHolds(e, hist, w'.handed, x);
    JudgesExactly(e, hist[k].frame, x.key);
    if x.verdict != Passed {
      var h := Handing(Judge(e, hist[k].frame, x.key).message, x.verdict == Applied, x.key);
      assert h in w'.handed;
    }
  }

  /** Without a notice that it was refused, the stored cursor never goes back. */
  lemma CursorNeverGoesBack(e: Setup, hist: seq<Sent>, w: World, runs: seq<seq<Attempt>>)
    requires HonestLife(e, hist, w, runs)
    requires forall i | 0 <= i < |MadeInLife(e, w, runs)| :: NoCursorNotice(e, MadeInLife(e, w, runs)[i].inputs)
    ensures Advances(w, Life(e, w, runs))
  {
    LifeIsItsConnections(e, w, runs);
    FirstFeedIsSafe(e, hist, w);
    ConnectionsKeep(e, hist, w, FirstFeed(hist, w), MadeInLife(e, w, runs));
  }

  /** While a cursor is held and can be read, connections resume from it, and the start stays put. */
  lemma {:induction false} StartStays(e: Setup, hist: seq<Sent>, w: World, feed: Feed, made: seq<Attempt>)
    requires IsHistory(e, hist) && Safe(hist, w, feed) && AllHonest(e, hist, w, feed, made)
    requires w.cursor.Some?
    requires forall i | 0 <= i < |made| :: made[i].loadOk && NoCursorNotice(e, made[i].inputs)
    ensures FeedAfterAll(e, hist, w, feed, made).start == feed.start
    decreases |made|
  {
    if made != [] {
      ConnectionKeeps(e, hist, w, feed, made[0]);
      StartStays(e, hist, Connection(e, w, made[0]).0, FeedAfter(hist, w, feed, made[0]), made[1..]);
    }
  }

  /** A connection that resumes from a cursor is only sent frames after it. */
  lemma {:induction false} ReplaysAreAhead(
    e: Setup, hist: seq<Sent>, cursor: int, inputs: seq<Input>, i: nat, next: nat, n: nat)
    requires i <= n < |inputs| && FirstAfter(hist, cursor) <= next && Feeds(e, hist, inputs, i, next)
    requires inputs[n].Message? && inputs[n].origin.Some?
    ensures inputs[n].origin.value < |hist| && cursor < hist[inputs[n].origin.value].sequence
    decreases n - i
  {
    if i < n {
      ReplaysAreAhead(e, hist, cursor, inputs, i + 1, NextAfter(inputs[i], next), n);
    }
  }

  /** Every commit the sink is ever given is tracked and verified, whatever the server sends. */
  lemma EveryCommitIsChecked(e: Setup, w: World, runs: seq<seq<Attempt>>, h: Handing)
    requires AllChecked(e, w) && h in Life(e, w, runs).handed
    ensures IsChecked(e, h)
  {
    LifeIsItsConnections(e, w, runs);
    ConnectionsKeepChecked(e, w, MadeInLife(e, w, runs));
  }

  /** At the full level, then, the repository signed it, its tree walks, and its tracked ops describe that tree. */
  lemma FullCommitsAreProven(
    e: Setup, w: World, runs: seq<seq<Attempt>>, h: Handing) returns (commit: Verify.RepoCommit)
    requires AllChecked(e, w) && h in Life(e, w, runs).handed
    requires h.message.Commit? && e.config.verification == Verify.Full
    ensures Verify.RepositorySigned(e.checks, h.message.envelope, h.message.blocks, h.key, commit)
    ensures commit.did == h.message.envelope.repo
    ensures Verify.TreeBearsOut(e.checks, h.message.envelope, h.message.blocks, commit, e.config.collections)
  {
    EveryCommitIsChecked(e, w, runs, h);
    commit := Verify.AcceptanceProves(
      e.checks, Verify.Full, h.message.envelope, h.message.blocks, h.key, e.config.collections);
  }
}
