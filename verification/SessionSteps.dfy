// What each command does to a signing session, as functions on an abstract view of it: the
// captured path, the declared length, and the bytes received so far.
module SessionSteps {
  import opened Wrappers
  import opened Bytes
  import opened Path
  import opened Policy
  import opened Review
  import SignatureFrames
  import Transaction

  const CLA: byte := 0xE0
  const GET_CONFIGURATION: byte := 0x00
  const VERIFY_PUBLIC_KEY: byte := 0x02
  const SIGN_TRANSACTION: byte := 0x04
  const RESET_SIGNING: byte := 0x06
  const FIRST: byte := 0x00
  const CONTINUE: byte := 0x01
  const LAST: byte := 0x02

  const MAX_FRAME_LEN: nat := 4096
  const MAX_TRANSACTION_PAYLOAD_LEN: nat := 3072
  const MAX_CHUNK_LEN: nat := 230
  const FIRST_MIN_DATA_LEN: nat := 26
  const FIRST_MAX_DATA_LEN: nat := 255
  const CONFIGURATION: seq<byte> := [0, 1, 0, 1, 0, 0]

  datatype StatusWord =
    | Success
    | UserRejected
    | InvalidState
    | InvalidData
    | ProfileBoundExceeded
    | InvalidP1P2
    | UnsupportedIns
    | UnsupportedCla
    | InternalFailure

  datatype ApduCommand = ApduCommand(cla: byte, ins: byte, p1: byte, p2: byte, data: seq<byte>)

  function SignCommand(p1: byte, data: seq<byte>): ApduCommand {
    ApduCommand(CLA, SIGN_TRANSACTION, p1, 0, data)
  }

  datatype DispatchOutcome =
    | Reply(status: StatusWord, response: seq<byte>)
    | ReviewPublicKey(path: DerivationPath, publicKey: Bytes32)
    | ReviewTransaction(review: ClearSigningReview)

  type KeyAnswer = DerivationPath -> Option<Bytes32>

  /** The policy and the derived key that a frame was judged with. The source keeps no record of
      them; the view does, so that the invariant can say what a pending frame has passed. */
  datatype Judgement = Judgement(policy: ClearSigningPolicy, publicKey: Bytes32)

  datatype SessionView =
    | Idle
    | Collecting(path: DerivationPath, declared: nat, received: seq<byte>)
    | AwaitingApproval(path: DerivationPath, frame: seq<byte>, judged: Judgement)

  /** A command's effect: the next view, the outcome, and the paths given to the key deriver. */
  datatype Step = Step(view: SessionView, outcome: DispatchOutcome, derived: seq<DerivationPath>)

  const ACCEPTED: DispatchOutcome := Reply(Success, [])

  function Failed(status: StatusWord): DispatchOutcome {
    Reply(status, [])
  }

  function Fail(status: StatusWord): Step {
    Step(Idle, Failed(status), [])
  }

  // ----- The one-shot judgement of a complete frame -----

  /** Whether a frame passes both decoders and the payload bound, so that a key is derived. */
  predicate ReachesDerivation(frame: seq<byte>) {
    match SignatureFrames.DecodeSignatureFrame(frame)
    case Err(_) => false
    case Ok(f) => |f.payload| <= MAX_TRANSACTION_PAYLOAD_LEN
                  && Transaction.DecodeTransactionSignable(f.payload).Ok?
  }

  /** The judgement of a complete frame, given what the deriver answers for the session's path. */
  function Verdict(p: ClearSigningPolicy, key: Option<Bytes32>, frame: seq<byte>): DispatchOutcome {
    match SignatureFrames.DecodeSignatureFrame(frame)
    case Err(_) => Failed(InvalidData)
    case Ok(f) =>
      if |f.payload| > MAX_TRANSACTION_PAYLOAD_LEN then Failed(ProfileBoundExceeded)
      else match Transaction.DecodeTransactionSignable(f.payload)
           case Err(_) => Failed(InvalidData)
           case Ok(t) =>
             if key.None? then Failed(InternalFailure)
             else if t.sender != key.value then Failed(InvalidData)
             else match BuildReview(f, t, p)
                  case Err(_) => Failed(InvalidData)
                  case Ok(review) => ReviewTransaction(review)
  }

  function Judge(p: ClearSigningPolicy, derive: KeyAnswer, path: DerivationPath, frame: seq<byte>): Step {
    var key := derive(path);
    var outcome := Verdict(p, key, frame);
    Step(if outcome.ReviewTransaction? then AwaitingApproval(path, frame, Judgement(p, key.value)) else Idle,
         outcome,
         if ReachesDerivation(frame) then [path] else [])
  }

  // ----- The commands -----

  function FirstStep(data: seq<byte>): Step {
    if |data| < FIRST_MIN_DATA_LEN then Fail(InvalidData)
    else if |data| > FIRST_MAX_DATA_LEN then Fail(ProfileBoundExceeded)
    else
      var total, chunk := BeValue(data[0..4]), data[25..];
      if total == 0 || total > MAX_FRAME_LEN then Fail(ProfileBoundExceeded)
      else match DecodePath(data[4..25])
           case Err(_) => Fail(InvalidData)
           case Ok(path) =>
             if total == |chunk| then Fail(InvalidData)
             else if |chunk| > total then Fail(ProfileBoundExceeded)
             else Step(Collecting(path, total, chunk), ACCEPTED, [])
  }

  function ContinueStep(view: SessionView, data: seq<byte>): Step {
    if !view.Collecting? then Fail(InvalidState)
    else if data == [] then Fail(InvalidData)
    else if |data| > MAX_CHUNK_LEN then Fail(ProfileBoundExceeded)
    else if |view.received| + |data| == view.declared then Fail(InvalidData)
    else if |view.received| + |data| > view.declared then Fail(ProfileBoundExceeded)
    else Step(view.(received := view.received + data), ACCEPTED, [])
  }

  function LastStep(p: ClearSigningPolicy, derive: KeyAnswer, view: SessionView, data: seq<byte>): Step {
    if !view.Collecting? then Fail(InvalidState)
    else if data == [] then Fail(InvalidData)
    else if |data| > MAX_CHUNK_LEN then Fail(ProfileBoundExceeded)
    else if |view.received| + |data| > view.declared then Fail(ProfileBoundExceeded)
    else if |view.received| + |data| < view.declared then Fail(InvalidData)
    else Judge(p, derive, view.path, view.received + data)
  }

  function SignStep(p: ClearSigningPolicy, derive: KeyAnswer, view: SessionView, c: ApduCommand): Step {
    if c.p2 != 0 then Fail(InvalidP1P2)
    else if c.p1 == FIRST then (if view.Idle? then FirstStep(c.data) else Fail(InvalidState))
    else if c.p1 == CONTINUE then ContinueStep(view, c.data)
    else if c.p1 == LAST then LastStep(p, derive, view, c.data)
    else Fail(InvalidP1P2)
  }

  function VerifyStep(derive: KeyAnswer, c: ApduCommand): Step {
    if c.p1 != 1 || c.p2 != 0 then Fail(InvalidP1P2)
    else match DecodePath(c.data)
         case Err(_) => Fail(InvalidData)
         case Ok(path) =>
           match derive(path)
           case None => Step(Idle, Failed(InternalFailure), [path])
           case Some(key) => Step(Idle, ReviewPublicKey(path, key), [path])
  }

  /** The commands without an effect on the session, other than ending it: a plain reply. */
  function PlainStep(c: ApduCommand, response: seq<byte>): Step {
    if c.p1 != 0 || c.p2 != 0 then Fail(InvalidP1P2)
    else if c.data != [] then Fail(InvalidData)
    else Step(Idle, Reply(Success, response), [])
  }

  function DispatchStep(p: ClearSigningPolicy, derive: KeyAnswer, view: SessionView, c: ApduCommand): Step {
    if c.cla != CLA then Fail(UnsupportedCla)
    else if c.ins == GET_CONFIGURATION then
      (if view.Idle? then PlainStep(c, CONFIGURATION) else Fail(InvalidState))
    else if c.ins == VERIFY_PUBLIC_KEY then
      (if view.Idle? then VerifyStep(derive, c) else Fail(InvalidState))
    else if c.ins == SIGN_TRANSACTION then
      (if view.AwaitingApproval? then Fail(InvalidState) else SignStep(p, derive, view, c))
    else if c.ins == RESET_SIGNING then PlainStep(c, [])
    else Fail(UnsupportedIns)
  }

  // ----- What every command keeps -----

  /** The frame passes every check of LAST: both decoders, the payload bound, the sender against
      the derived key, and the review under the policy. */
  predicate PassedLast(judged: Judgement, frame: seq<byte>) {
    Verdict(judged.policy, Some(judged.publicKey), frame).ReviewTransaction?
  }

  predicate ValidView(view: SessionView) {
    match view
    case Idle => true
    case Collecting(_, declared, received) => 0 < |received| < declared <= MAX_FRAME_LEN
    case AwaitingApproval(_, frame, judged) => 2 <= |frame| <= MAX_FRAME_LEN && PassedLast(judged, frame)
  }

  /** The key of a pending frame is the deriver's answer for the session's path, and the policy is
      the one given. */
  predicate JudgedWith(view: SessionView, p: ClearSigningPolicy, derive: KeyAnswer) {
    view.AwaitingApproval? ==> view.judged.policy == p && derive(view.path) == Some(view.judged.publicKey)
  }

  /** Every command keeps the invariant; a frame is pending after it exactly when it returned that
      frame's review, and was then judged with its policy and its deriver's key for the session's
      path; every reply other than success ends in Idle; a key is derived at most once, for the
      path in the command (verify) or the one captured on FIRST (LAST); and an internal failure
      comes only from a deriver that gave no key. */
  lemma DispatchKeeps(p: ClearSigningPolicy, derive: KeyAnswer, view: SessionView, c: ApduCommand)
    requires ValidView(view)
    ensures var s := DispatchStep(p, derive, view, c);
            && ValidView(s.view)
            && JudgedWith(s.view, p, derive)
            && (s.view.AwaitingApproval? <==> s.outcome.ReviewTransaction?)
            && (s.outcome.Reply? && s.outcome.status != Success ==> s.view == Idle)
            && (s.outcome.Reply? && s.outcome.status == InternalFailure ==>
                  |s.derived| == 1 && derive(s.derived[0]) == None)
            && (s.derived == []
                || (c.ins == VERIFY_PUBLIC_KEY && DecodePath(c.data).Ok?
                    && s.derived == [DecodePath(c.data).value])
                || (c.ins == SIGN_TRANSACTION && c.p1 == LAST && view.Collecting?
                    && s.derived == [view.path]))
  {
    hide DecodePath, Verdict, ReachesDerivation, BeValue, PassedLast;
    if c.ins == SIGN_TRANSACTION && c.p1 == LAST && view.Collecting? {
      JudgeKeeps(p, derive, view.path, view.received + c.data);
    }
  }

  /** Judging a complete frame puts it up for approval exactly when it returns a review, and then
      the frame has passed every check with this policy and the key derived for this path. */
  lemma JudgeKeeps(p: ClearSigningPolicy, derive: KeyAnswer, path: DerivationPath, frame: seq<byte>)
    ensures var s := Judge(p, derive, path, frame);
            && (match s.outcome
                case ReviewTransaction(r) =>
                  && s.view.AwaitingApproval? && s.view.path == path && s.view.frame == frame
                  && JudgedWith(s.view, p, derive) && PassedLast(s.view.judged, frame)
                  && ReviewOf(p, frame) == Some(r) && derive(path) == Some(r.sender)
                  && s.derived == [path]
                case Reply(status, _) =>
                  && s.view == Idle && status != Success
                  && (status == InternalFailure ==> s.derived == [path] && derive(path) == None)
                case ReviewPublicKey(_, _) => false)
  {
    hide BuildReview, Transaction.DecodeTransactionSignable, SignatureFrames.DecodeSignatureFrame;
    var outcome := Verdict(p, derive(path), frame);
    if outcome.ReviewTransaction? {
      hide Verdict;
      VerdictIsReview(p, derive(path), frame, outcome.review);
    }
  }

  /** Only a LAST that completes a collection puts a frame up: the bytes collected and its own, with
      the captured path, judged with its policy and its deriver. */
  lemma PendingStep(p: ClearSigningPolicy, derive: KeyAnswer, view: SessionView, c: ApduCommand)
    requires var s := DispatchStep(p, derive, view, c);
             s.view.AwaitingApproval? || s.outcome.ReviewTransaction?
    ensures c == SignCommand(LAST, c.data) && view.Collecting?
    ensures var frame := view.received + c.data;
            |frame| == view.declared
            && DispatchStep(p, derive, view, c) == Judge(p, derive, view.path, frame)
  {
    hide DecodePath, BeValue, Judge;
  }

  /** Only an accepted FIRST from idle or an accepted CONTINUE leaves a collection. */
  lemma CollectingStep(p: ClearSigningPolicy, derive: KeyAnswer, view: SessionView, c: ApduCommand)
    requires DispatchStep(p, derive, view, c).view.Collecting?
    ensures var after := DispatchStep(p, derive, view, c).view;
            || (view.Collecting? && c == SignCommand(CONTINUE, c.data)
                && after == view.(received := view.received + c.data))
            || (view.Idle? && c == SignCommand(FIRST, c.data) && |c.data| >= FIRST_MIN_DATA_LEN
                && DecodePath(c.data[4..25]) == Ok(after.path)
                && BeValue(c.data[0..4]) == after.declared && after.received == c.data[25..])
  {
    hide DecodePath, BeValue, Verdict, ReachesDerivation;
  }

  /** The judgement succeeds exactly on the frame rebuilt from a reviewable review whose sender is
      the derived key; the 3072-byte payload bound turns away nothing else. */
  lemma VerdictExactly(p: ClearSigningPolicy, key: Option<Bytes32>, frame: seq<byte>, r: ClearSigningReview)
    ensures Verdict(p, key, frame) == ReviewTransaction(r)
            <==> Reviewable(p, r) && key == Some(r.sender) && frame == SignedBytesOf(p, r)
  {
    hide Transaction.DecodeTransactionSignable, SignatureFrames.DecodeSignatureFrame,
         ClearSigningPolicy.Recognize, Reviewable, SignedBytesOf;
    ReviewExactly(p, frame, r);
    if ReviewOf(p, frame).Some? {
      ReviewedInputsAreShort(p, frame);
    }
  }

  lemma VerdictIsReview(p: ClearSigningPolicy, key: Option<Bytes32>, frame: seq<byte>, r: ClearSigningReview)
    ensures Verdict(p, key, frame) == ReviewTransaction(r)
            <==> ReviewOf(p, frame) == Some(r) && key == Some(r.sender)
    ensures Verdict(p, key, frame) == ReviewTransaction(r) ==> ReachesDerivation(frame)
  {
    hide Reviewable, SignedBytesOf, BuildReview;
    VerdictExactly(p, key, frame, r);
    ReviewExactly(p, frame, r);
  }
}
