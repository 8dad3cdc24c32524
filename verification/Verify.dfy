/** Verifying a commit against the repository that claims to have made it. */
module Verify {
  import opened Common
  import opened Wire
  import Key

  datatype Level = Off | SignatureOnly | Full

  datatype Verification = Skipped | Signature | Complete

  datatype Failure =
    | Car
    | CommitBlockMissing
    | CommitMalformed
    | SigningKeyUnresolved
    | BadSignature
    | Tree
    | OpNotIncluded(path: Utf8Text)

  datatype Block = Block(cid: Cid, data: seq<byte>)

  datatype RepoCommit = RepoCommit(did: Utf8Text, data: Cid, sig: seq<byte>)

  /** What a lookup in the tree under a root comes to: a walk can fail, and a path can be absent. */
  datatype Lookup = WalkFailed | Absent | Found(cid: Cid)

  /** The CAR reader, the commit codec, the signature check and the tree walks. */
  datatype Checks = Checks(
    readSlice: seq<byte> -> Option<seq<Block>>,
    parseCommit: seq<byte> -> Option<RepoCommit>,
    signingBytes: RepoCommit -> Option<seq<byte>>,
    validate: (Key.KeyData, seq<byte>, seq<byte>) -> bool,
    verifyInductive: (Option<Cid>, Cid, seq<Block>) -> bool,
    lookup: (Cid, seq<Block>, Utf8Text) -> Lookup)

  // ---- proving the ops against the tree ----

  datatype OpVerdict = Malformed | Proven | Refuted

  /** A create or update must resolve to the CID it names, a delete to nothing. */
  function JudgeOp(c: Checks, root: Cid, blocks: seq<Block>, op: RepoOp): OpVerdict {
    match c.lookup(root, blocks, op.path)
    case WalkFailed => Malformed
    case Absent =>
      if op.action == Delete then Proven
      else if op.cid.None? then Malformed
      else Refuted
    case Found(cid) =>
      if op.action == Delete then Refuted
      else if op.cid.None? then Malformed
      else if op.cid.value == cid then Proven
      else Refuted
  }

  /** Whether each tracked op was proven, in order; nothing when one is malformed. */
  function Inclusions(c: Checks, root: Cid, ops: seq<RepoOp>, blocks: seq<Block>, collections: seq<Utf8Text>)
    : Option<seq<(Utf8Text, bool)>>
  {
    if ops == [] then Some([])
    else
      var init :- Inclusions(c, root, ops[..|ops| - 1], blocks, collections);
      var op := ops[|ops| - 1];
      if !IsTracked(op, collections) then Some(init)
      else
        match JudgeOp(c, root, blocks, op)
        case Malformed => None
        case v => Some(init + [(op.path, v == Proven)])
  }

  /** The filter selects the op: it lists nothing, or the op's collection. */
  predicate IsSelected(op: RepoOp, collections: seq<Utf8Text>) {
    collections == [] || Collection(op.path) in collections
  }

  /** Every op the filter selects describes the tree under `root`. */
  ghost predicate OpsDescribe(c: Checks, root: Cid, ops: seq<RepoOp>, blocks: seq<Block>, collections: seq<Utf8Text>) {
    forall i | 0 <= i < |ops| :: IsSelected(ops[i], collections) ==> Describes(c, root, ops[i], blocks)
  }

  predicate Describes(c: Checks, root: Cid, op: RepoOp, blocks: seq<Block>) {
    match op.action
    case Delete => c.lookup(root, blocks, op.path) == Absent
    case _ => op.cid.Some? && c.lookup(root, blocks, op.path) == Found(op.cid.value)
  }

  lemma {:induction false} OneMalformedOpSpoilsAll(
    c: Checks, root: Cid, ops: seq<RepoOp>, i: nat, blocks: seq<Block>, collections: seq<Utf8Text>)
    requires i < |ops| && IsTracked(ops[i], collections) && JudgeOp(c, root, blocks, ops[i]) == Malformed
    ensures Inclusions(c, root, ops, blocks, collections) == None
  {
    if i < |ops| - 1 {
      OneMalformedOpSpoilsAll(c, root, ops[..|ops| - 1], i, blocks, collections);
    }
  }

  /** The ops the filter selects, in order. */
  function Selected(ops: seq<RepoOp>, collections: seq<Utf8Text>): seq<RepoOp> {
    if ops == [] then []
    else
      var k := |ops| - 1;
      Selected(ops[..k], collections) + (if IsSelected(ops[k], collections) then [ops[k]] else [])
  }

  /** One verdict for each selected op, in order: its path, and whether it describes the tree. */
  lemma {:induction false} VerdictsAre(
    c: Checks, root: Cid, ops: seq<RepoOp>, blocks: seq<Block>, collections: seq<Utf8Text>)
    requires Inclusions(c, root, ops, blocks, collections).Some?
    ensures var verdicts, selected := Inclusions(c, root, ops, blocks, collections).value, Selected(ops, collections);
      && |verdicts| == |selected|
      && forall i | 0 <= i < |selected| :: verdicts[i] == (selected[i].path, Describes(c, root, selected[i], blocks))
  {
    if ops != [] {
      VerdictsAre(c, root, ops[..|ops| - 1], blocks, collections);
    }
  }

  predicate AllProven(verdicts: seq<(Utf8Text, bool)>) {
    forall i | 0 <= i < |verdicts| :: verdicts[i].1
  }

  /** The verdicts are all good exactly when the ops describe the tree. */
  lemma {:induction false} InclusionsJudge(
    c: Checks, root: Cid, ops: seq<RepoOp>, blocks: seq<Block>, collections: seq<Utf8Text>)
    ensures var r := Inclusions(c, root, ops, blocks, collections);
      r.Some? && AllProven(r.value) <==> OpsDescribe(c, root, ops, blocks, collections)
  {
    if ops != [] {
      var k := |ops| - 1;
      var init := Inclusions(c, root, ops[..k], blocks, collections);
      InclusionsJudge(c, root, ops[..k], blocks, collections);
      assert JudgeOp(c, root, blocks, ops[k]) == Proven <==> Describes(c, root, ops[k], blocks);
      if init.Some? {
        AllProvenOneMore(init.value, (ops[k].path, JudgeOp(c, root, blocks, ops[k]) == Proven));
      }
      assert OpsDescribe(c, root, ops, blocks, collections) <==>
        OpsDescribe(c, root, ops[..k], blocks, collections)
        && (IsSelected(ops[k], collections) ==> Describes(c, root, ops[k], blocks));
    }
  }

  lemma AllProvenOneMore(verdicts: seq<(Utf8Text, bool)>, v: (Utf8Text, bool))
    ensures AllProven(verdicts + [v]) <==> AllProven(verdicts) && v.1
  {
    assert (verdicts + [v])[|verdicts|] == v;
    assert forall i | 0 <= i < |verdicts| :: (verdicts + [v])[i] == verdicts[i];
  }

  method VerifyOpInclusion(c: Checks, dataRoot: Cid, ops: seq<RepoOp>, blocks: seq<Block>, collections: seq<Utf8Text>)
    returns (r: Option<seq<(Utf8Text, bool)>>)
    ensures r == Inclusions(c, dataRoot, ops, blocks, collections)
    ensures r.Some? && AllProven(r.value) <==> OpsDescribe(c, dataRoot, ops, blocks, collections)
  {
    var verdicts: seq<(Utf8Text, bool)> := [];
    for i := 0 to |ops|
      invariant Inclusions(c, dataRoot, ops[..i], blocks, collections) == Some(verdicts)
    {
      var op := ops[i];
      assert ops[..i + 1][..i] == ops[..i];
      if !IsTracked(op, collections) { continue; }
      var found := c.lookup(dataRoot, blocks, op.path);
      if found.WalkFailed? || (op.action != Delete && op.cid.None?) {
        OneMalformedOpSpoilsAll(c, dataRoot, ops, i, blocks, collections);
        InclusionsJudge(c, dataRoot, ops, blocks, collections);
        return None;
      }
      var verified := match op.action
        case Delete => found == Absent
        case _ => found == Found(op.cid.value);
      verdicts := verdicts + [(op.path, verified)];
    }
    assert ops[..|ops|] == ops;
    InclusionsJudge(c, dataRoot, ops, blocks, collections);
    return Some(verdicts);
  }

  // ---- verifying a commit ----

  function FindBlock(blocks: seq<Block>, cid: Cid): Option<seq<byte>> {
    if blocks == [] then None
    else if blocks[0].cid == cid then Some(blocks[0].data)
    else FindBlock(blocks[1..], cid)
  }

  function FirstRefuted(verdicts: seq<(Utf8Text, bool)>): (p: Option<Utf8Text>)
    ensures p.None? <==> AllProven(verdicts)
  {
    if verdicts == [] then None
    else if !verdicts[0].1 then Some(verdicts[0].0)
    else FirstRefuted(verdicts[1..])
  }

  /** The commit an event carries, once it is shown to be the event's repository's own. */
  function OwnCommit(c: Checks, envelope: CommitEnvelope, blocks: seq<Block>): Result<RepoCommit, Failure> {
    match FindBlock(blocks, envelope.commit)
    case None => Err(CommitBlockMissing)
    case Some(bytes) =>
      match c.parseCommit(bytes)
      case None => Err(CommitMalformed)
      case Some(commit) => if commit.did != envelope.repo then Err(CommitMalformed) else Ok(commit)
  }

  function CheckSignature(c: Checks, commit: RepoCommit, key: Option<Key.KeyData>): Option<Failure> {
    match c.signingBytes(commit)
    case None => Some(CommitMalformed)
    case Some(bytes) =>
      match key
      case None => Some(SigningKeyUnresolved)
      case Some(k) => if c.validate(k, commit.sig, bytes) then None else Some(BadSignature)
  }

  function CheckTree(
    c: Checks, envelope: CommitEnvelope, commit: RepoCommit, blocks: seq<Block>, collections: seq<Utf8Text>)
    : Option<Failure>
  {
    if !c.verifyInductive(envelope.prevData, commit.data, blocks) then Some(Tree)
    else
      match Inclusions(c, commit.data, envelope.ops, blocks, collections)
      case None => Some(Tree)
      case Some(verdicts) =>
        match FirstRefuted(verdicts)
        case None => None
        case Some(path) => Some(OpNotIncluded(path))
  }

  /** `key` is what the resolver answers for the event's repository. */
  function Verified(
    c: Checks, level: Level, envelope: CommitEnvelope, blocks: seq<byte>, key: Option<Key.KeyData>,
    collections: seq<Utf8Text>)
    : Result<Verification, Failure>
  {
    if level == Off then Ok(Skipped)
    else
      match c.readSlice(blocks)
      case None => Err(Car)
      case Some(carBlocks) =>
        match OwnCommit(c, envelope, carBlocks)
        case Err(e) => Err(e)
        case Ok(commit) =>
          match CheckSignature(c, commit, key)
          case Some(e) => Err(e)
          case None =>
            if level == SignatureOnly then Ok(Signature)
            else
              match CheckTree(c, envelope, commit, carBlocks, collections)
              case Some(e) => Err(e)
              case None => Ok(Complete)
  }

  method VerifyCommit(
    c: Checks, level: Level, envelope: CommitEnvelope, blocks: seq<byte>, key: Option<Key.KeyData>,
    collections: seq<Utf8Text>)
    returns (r: Result<Verification, Failure>)
    ensures r == Verified(c, level, envelope, blocks, key, collections)
  {
    if level == Off { return Ok(Skipped); }

    var slice := c.readSlice(blocks);
    if slice.None? { return Err(Car); }
    var carBlocks := slice.value;

    var commitBytes := FindBlock(carBlocks, envelope.commit);
    if commitBytes.None? { return Err(CommitBlockMissing); }
    var parsed := c.parseCommit(commitBytes.value);
    if parsed.None? { return Err(CommitMalformed); }
    var commit := parsed.value;
    if commit.did != envelope.repo { return Err(CommitMalformed); }

    var signingBytes := c.signingBytes(commit);
    if signingBytes.None? { return Err(CommitMalformed); }
    if key.None? { return Err(SigningKeyUnresolved); }
    if !c.validate(key.value, commit.sig, signingBytes.value) { return Err(BadSignature); }

    if level == SignatureOnly { return Ok(Signature); }

    if !c.verifyInductive(envelope.prevData, commit.data, carBlocks) { return Err(Tree); }
    var inclusions := VerifyOpInclusion(c, commit.data, envelope.ops, carBlocks, collections);
    if inclusions.None? { return Err(Tree); }
    var bad := FirstRefuted(inclusions.value);
    if bad.Some? { return Err(OpNotIncluded(bad.value)); }
    return Ok(Complete);
  }

  // ---- what acceptance proves ----

  /** The first block with the CID holds `data`. */
  ghost predicate Holds(blocks: seq<Block>, cid: Cid, data: seq<byte>) {
    exists i :: 0 <= i < |blocks| && blocks[i] == Block(cid, data) && forall j | 0 <= j < i :: blocks[j].cid != cid
  }

  /** The commit the event names is in its blocks, and it is of the event's repository. */
  ghost predicate IsOwnCommit(c: Checks, envelope: CommitEnvelope, blocks: seq<byte>, commit: RepoCommit) {
    && c.readSlice(blocks).Some?
    && (exists data :: Holds(c.readSlice(blocks).value, envelope.commit, data) && c.parseCommit(data) == Some(commit))
    && commit.did == envelope.repo
  }

  /** The repository signed the commit the event names, and it is the event's repository. */
  ghost predicate RepositorySigned(
    c: Checks, envelope: CommitEnvelope, blocks: seq<byte>, key: Option<Key.KeyData>, commit: RepoCommit) {
    && IsOwnCommit(c, envelope, blocks, commit)
    && key.Some? && c.signingBytes(commit).Some?
    && c.validate(key.value, commit.sig, c.signingBytes(commit).value)
  }

  /** The tree under the commit walks, and every tracked op describes it. */
  ghost predicate TreeBearsOut(
    c: Checks, envelope: CommitEnvelope, blocks: seq<byte>, commit: RepoCommit, collections: seq<Utf8Text>)
    requires c.readSlice(blocks).Some?
  {
    && c.verifyInductive(envelope.prevData, commit.data, c.readSlice(blocks).value)
    && OpsDescribe(c, commit.data, envelope.ops, c.readSlice(blocks).value, collections)
  }

  lemma {:induction false} FoundIsFirst(blocks: seq<Block>, cid: Cid, data: seq<byte>)
    ensures FindBlock(blocks, cid) == Some(data) <==> Holds(blocks, cid, data)
    ensures FindBlock(blocks, cid) == None <==> forall b | b in blocks :: b.cid != cid
  {
    if blocks != [] {
      FoundIsFirst(blocks[1..], cid, data);
      if blocks[0].cid == cid {
        HoldsFirst(blocks, cid, data);
      } else {
        if Holds(blocks[1..], cid, data) { HoldsLater(blocks, cid, data); }
        if Holds(blocks, cid, data) { HoldsEarlier(blocks, cid, data); }
      }
    }
  }

  lemma HoldsFirst(blocks: seq<Block>, cid: Cid, data: seq<byte>)
    requires blocks != [] && blocks[0].cid == cid
    ensures Holds(blocks, cid, data) <==> blocks[0].data == data
  {
    if blocks[0].data == data {
      assert blocks[0] == Block(cid, data);
    }
  }

  lemma HoldsLater(blocks: seq<Block>, cid: Cid, data: seq<byte>)
    requires blocks != [] && blocks[0].cid != cid && Holds(blocks[1..], cid, data)
    ensures Holds(blocks, cid, data)
  {
    var rest := blocks[1..];
    var i :| 0 <= i < |rest| && rest[i] == Block(cid, data) && forall j | 0 <= j < i :: rest[j].cid != cid;
    assert blocks[i + 1] == Block(cid, data);
    assert forall j | 0 < j < i + 1 :: blocks[j] == rest[j - 1];
  }

  lemma HoldsEarlier(blocks: seq<Block>, cid: Cid, data: seq<byte>)
    requires blocks != [] && blocks[0].cid != cid && Holds(blocks, cid, data)
    ensures Holds(blocks[1..], cid, data)
  {
    var rest := blocks[1..];
    var i :| 0 <= i < |blocks| && blocks[i] == Block(cid, data) && forall j | 0 <= j < i :: blocks[j].cid != cid;
    assert rest[i - 1] == Block(cid, data);
    assert forall j | 0 <= j < i - 1 :: rest[j] == blocks[j + 1];
  }

  lemma OwnCommitIs(c: Checks, envelope: CommitEnvelope, blocks: seq<byte>, commit: RepoCommit)
    requires c.readSlice(blocks).Some?
    ensures OwnCommit(c, envelope, c.readSlice(blocks).value) == Ok(commit)
      <==> IsOwnCommit(c, envelope, blocks, commit)
  {
    var carBlocks := c.readSlice(blocks).value;
    var found := FindBlock(carBlocks, envelope.commit);
    FoundIsFirst(carBlocks, envelope.commit, if found.Some? then found.value else []);
    if IsOwnCommit(c, envelope, blocks, commit) {
      var data :| Holds(carBlocks, envelope.commit, data) && c.parseCommit(data) == Some(commit);
      FoundIsFirst(carBlocks, envelope.commit, data);
    }
  }

  lemma TreeChecked(
    c: Checks, envelope: CommitEnvelope, blocks: seq<byte>, commit: RepoCommit, collections: seq<Utf8Text>)
    requires c.readSlice(blocks).Some?
    ensures CheckTree(c, envelope, commit, c.readSlice(blocks).value, collections).None?
      <==> TreeBearsOut(c, envelope, blocks, commit, collections)
  {
    InclusionsJudge(c, commit.data, envelope.ops, c.readSlice(blocks).value, collections);
  }

  /**
   * What each level's acceptance proves, exactly: nothing, the repository's signature, and
   * the signature with the tree and every tracked op besides.
   */
  lemma AcceptanceProves(
    c: Checks, level: Level, envelope: CommitEnvelope, blocks: seq<byte>, key: Option<Key.KeyData>,
    collections: seq<Utf8Text>)
    returns (commit: RepoCommit)
    requires level != Off && Verified(c, level, envelope, blocks, key, collections).Ok?
    ensures RepositorySigned(c, envelope, blocks, key, commit)
    ensures level == Full ==> TreeBearsOut(c, envelope, blocks, commit, collections)
  {
    commit := OwnCommit(c, envelope, c.readSlice(blocks).value).value;
    OwnCommitIs(c, envelope, blocks, commit);
    TreeChecked(c, envelope, blocks, commit, collections);
  }

  lemma ProofIsAccepted(
    c: Checks, envelope: CommitEnvelope, blocks: seq<byte>, key: Option<Key.KeyData>, collections: seq<Utf8Text>,
    commit: RepoCommit)
    requires RepositorySigned(c, envelope, blocks, key, commit)
    ensures Verified(c, SignatureOnly, envelope, blocks, key, collections) == Ok(Signature)
    ensures TreeBearsOut(c, envelope, blocks, commit, collections) ==>
      Verified(c, Full, envelope, blocks, key, collections) == Ok(Complete)
  {
    OwnCommitIs(c, envelope, blocks, commit);
    TreeChecked(c, envelope, blocks, commit, collections);
  }

  /** When each level accepts, in terms of the commit its blocks hold. */
  lemma AcceptsExactly(
    c: Checks, level: Level, envelope: CommitEnvelope, blocks: seq<byte>, key: Option<Key.KeyData>,
    collections: seq<Utf8Text>)
    ensures Verified(c, level, envelope, blocks, key, collections).Ok? <==>
      match level
      case Off => true
      case SignatureOnly => exists commit :: RepositorySigned(c, envelope, blocks, key, commit)
      case Full => exists commit ::
        && RepositorySigned(c, envelope, blocks, key, commit)
        && TreeBearsOut(c, envelope, blocks, commit, collections)
  {
    if level != Off && Verified(c, level, envelope, blocks, key, collections).Ok? {
      var commit := AcceptanceProves(c, level, envelope, blocks, key, collections);
    }
    forall commit | RepositorySigned(c, envelope, blocks, key, commit)
      ensures Verified(c, SignatureOnly, envelope, blocks, key, collections).Ok?
      ensures TreeBearsOut(c, envelope, blocks, commit, collections) ==>
        Verified(c, Full, envelope, blocks, key, collections).Ok?
    {
      ProofIsAccepted(c, envelope, blocks, key, collections, commit);
    }
  }

  // ---- what a failure says ----

  /** The filter selects op `i`, and it does not describe the tree although the walk answers for it. */
  predicate IsRefuted(c: Checks, root: Cid, ops: seq<RepoOp>, i: nat, blocks: seq<Block>, collections: seq<Utf8Text>) {
    && i < |ops| && IsSelected(ops[i], collections) && !Describes(c, root, ops[i], blocks)
    && c.lookup(root, blocks, ops[i].path) != WalkFailed && (ops[i].action != Delete ==> ops[i].cid.Some?)
  }

  lemma FirstRefutedOfConcat(verdicts: seq<(Utf8Text, bool)>, v: (Utf8Text, bool))
    ensures FirstRefuted(verdicts + [v])
         == if FirstRefuted(verdicts).Some? then FirstRefuted(verdicts) else if v.1 then None else Some(v.0)
  {
    if verdicts == [] {
      assert verdicts + [v] == [v] && [v][1..] == [];
    } else {
      FirstRefutedOfConcat(verdicts[1..], v);
      assert (verdicts + [v])[1..] == verdicts[1..] + [v];
    }
  }

  /** The path reported is that of the first selected op that does not describe the tree. */
  lemma {:induction false} FirstRefutedIs(
    c: Checks, root: Cid, ops: seq<RepoOp>, blocks: seq<Block>, collections: seq<Utf8Text>) returns (i: nat)
    requires var r := Inclusions(c, root, ops, blocks, collections); r.Some? && FirstRefuted(r.value).Some?
    ensures IsRefuted(c, root, ops, i, blocks, collections)
    ensures OpsDescribe(c, root, ops[..i], blocks, collections)
    ensures FirstRefuted(Inclusions(c, root, ops, blocks, collections).value) == Some(ops[i].path)
  {
    var k := |ops| - 1;
    var init := Inclusions(c, root, ops[..k], blocks, collections).value;
    if IsTracked(ops[k], collections) {
      FirstRefutedOfConcat(init, (ops[k].path, JudgeOp(c, root, blocks, ops[k]) == Proven));
    }
    if FirstRefuted(init).Some? {
      i := FirstRefutedIs(c, root, ops[..k], blocks, collections);
      assert ops[..k][..i] == ops[..i];
    } else {
      i := k;
      InclusionsJudge(c, root, ops[..k], blocks, collections);
    }
  }

  lemma {:induction false} MalformedIs(
    c: Checks, root: Cid, ops: seq<RepoOp>, blocks: seq<Block>, collections: seq<Utf8Text>) returns (i: nat)
    requires Inclusions(c, root, ops, blocks, collections) == None
    ensures i < |ops| && IsSelected(ops[i], collections)
    ensures c.lookup(root, blocks, ops[i].path) == WalkFailed || (ops[i].action != Delete && ops[i].cid.None?)
  {
    var k := |ops| - 1;
    if Inclusions(c, root, ops[..k], blocks, collections).None? {
      i := MalformedIs(c, root, ops[..k], blocks, collections);
    } else {
      i := k;
    }
  }

  /**
   * A refusal names something that is so: each failure is reported only of a commit that passed
   * every earlier check, and the op reported is the first that the tree does not bear out.
   */
  lemma FailureIsReal(
    c: Checks, level: Level, envelope: CommitEnvelope, blocks: seq<byte>, key: Option<Key.KeyData>,
    collections: seq<Utf8Text>)
    requires Verified(c, level, envelope, blocks, key, collections).Err?
    ensures level != Off
    ensures match Verified(c, level, envelope, blocks, key, collections).error
      case Car => c.readSlice(blocks).None?
      case CommitBlockMissing =>
        c.readSlice(blocks).Some? && forall b | b in c.readSlice(blocks).value :: b.cid != envelope.commit
      case CommitMalformed =>
        !exists commit :: IsOwnCommit(c, envelope, blocks, commit) && c.signingBytes(commit).Some?
      case SigningKeyUnresolved => key.None? && exists commit :: IsOwnCommit(c, envelope, blocks, commit)
      case BadSignature => key.Some? && exists commit ::
        IsOwnCommit(c, envelope, blocks, commit) && !RepositorySigned(c, envelope, blocks, key, commit)
      case Tree => level == Full && exists commit ::
        RepositorySigned(c, envelope, blocks, key, commit)
        && !TreeBearsOut(c, envelope, blocks, commit, collections)
      case OpNotIncluded(path) => level == Full && exists commit, i: nat ::
        RepositorySigned(c, envelope, blocks, key, commit)
        && IsRefuted(c, commit.data, envelope.ops, i, c.readSlice(blocks).value, collections)
        && envelope.ops[i].path == path
        && OpsDescribe(c, commit.data, envelope.ops[..i], c.readSlice(blocks).value, collections)
  {
    if c.readSlice(blocks).Some? {
      var carBlocks := c.readSlice(blocks).value;
      FoundIsFirst(carBlocks, envelope.commit, []);
      forall commit ensures OwnCommit(c, envelope, carBlocks) == Ok(commit)
        <==> IsOwnCommit(c, envelope, blocks, commit)
      {
        OwnCommitIs(c, envelope, blocks, commit);
      }
      if OwnCommit(c, envelope, carBlocks).Ok? {
        SignedFailureIsReal(c, level, envelope, blocks, key, collections, OwnCommit(c, envelope, carBlocks).value);
      }
    }
  }

  lemma SignedFailureIsReal(
    c: Checks, level: Level, envelope: CommitEnvelope, blocks: seq<byte>, key: Option<Key.KeyData>,
    collections: seq<Utf8Text>, commit: RepoCommit)
    requires c.readSlice(blocks).Some? && OwnCommit(c, envelope, c.readSlice(blocks).value) == Ok(commit)
    requires IsOwnCommit(c, envelope, blocks, commit)
    requires Verified(c, level, envelope, blocks, key, collections).Err?
    ensures match Verified(c, level, envelope, blocks, key, collections).error
      case CommitMalformed => c.signingBytes(commit).None?
      case SigningKeyUnresolved => key.None?
      case BadSignature => key.Some? && !RepositorySigned(c, envelope, blocks, key, commit)
      case Tree => level == Full && RepositorySigned(c, envelope, blocks, key, commit)
        && !TreeBearsOut(c, envelope, blocks, commit, collections)
      case OpNotIncluded(path) =>
        level == Full && RepositorySigned(c, envelope, blocks, key, commit) && exists i: nat ::
        && IsRefuted(c, commit.data, envelope.ops, i, c.readSlice(blocks).value, collections)
        && envelope.ops[i].path == path
        && OpsDescribe(c, commit.data, envelope.ops[..i], c.readSlice(blocks).value, collections)
      case _ => false
  {
    TreeChecked(c, envelope, blocks, commit, collections);
    if Verified(c, level, envelope, blocks, key, collections).error.OpNotIncluded? {
      var i := FirstRefutedIs(c, commit.data, envelope.ops, c.readSlice(blocks).value, collections);
    }
  }

  /** Given the same answers, a stricter level accepts less; and only the tree checks part the last two. */
  lemma LevelsNest(
    c: Checks, envelope: CommitEnvelope, blocks: seq<byte>, key: Option<Key.KeyData>, collections: seq<Utf8Text>)
    ensures Verified(c, Full, envelope, blocks, key, collections).Ok?
      ==> Verified(c, SignatureOnly, envelope, blocks, key, collections).Ok?
    ensures Verified(c, SignatureOnly, envelope, blocks, key, collections).Ok?
      ==> Verified(c, Off, envelope, blocks, key, collections).Ok?
    ensures Verified(c, SignatureOnly, envelope, blocks, key, collections).Ok? ==>
      (Verified(c, Full, envelope, blocks, key, collections).Ok? <==>
        TreeBearsOut(c, envelope, blocks, OwnCommit(c, envelope, c.readSlice(blocks).value).value, collections))
  {
    if Verified(c, SignatureOnly, envelope, blocks, key, collections).Ok? {
      var carBlocks := c.readSlice(blocks).value;
      InclusionsJudge(c, OwnCommit(c, envelope, carBlocks).value.data, envelope.ops, carBlocks, collections);
    }
  }

  /** The filter only narrows: tracking more collections, or all of them, never accepts more. */
  lemma TrackingMoreAcceptsLess(
    c: Checks, envelope: CommitEnvelope, blocks: seq<byte>, key: Option<Key.KeyData>, few: seq<Utf8Text>,
    many: seq<Utf8Text>)
    requires many == [] || (few != [] && forall x | x in few :: x in many)
    ensures Verified(c, Full, envelope, blocks, key, many).Ok? ==> Verified(c, Full, envelope, blocks, key, few).Ok?
  {
    if Verified(c, Full, envelope, blocks, key, many).Ok? {
      var carBlocks := c.readSlice(blocks).value;
      var root := OwnCommit(c, envelope, carBlocks).value.data;
      InclusionsJudge(c, root, envelope.ops, carBlocks, many);
      InclusionsJudge(c, root, envelope.ops, carBlocks, few);
    }
  }
}
