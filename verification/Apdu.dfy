// The signing session with its fixed buffer, and the command dispatcher over it. Each method is
// proved against the function of module SessionSteps that says what its command does.
module Apdu {
  import opened Wrappers
  import opened Bytes
  import opened Path
  import opened Policy
  import opened Review
  import opened SessionSteps
  import SignatureFrames
  import Transaction

  /** The injected key deriver: any answers at all, and a log of the paths asked for. */
  class PublicKeyDeriver {
    var answers: KeyAnswer
    var calls: seq<DerivationPath>

    constructor (answers: KeyAnswer)
      ensures this.answers == answers && calls == []
    {
      this.answers := answers;
      calls := [];
    }

    method Derive(path: DerivationPath) returns (key: Option<Bytes32>)
      modifies this`calls
      ensures calls == old(calls) + [path] && key == answers(path)
    {
      calls := calls + [path];
      key := answers(path);
    }
  }

  datatype SignCall = SignCall(path: DerivationPath, frame: seq<byte>)

  type SignAnswer = SignCall -> Option<Bytes64>

  /** The injected signer, likewise. */
  class FrameSigner {
    var answers: SignAnswer
    var calls: seq<SignCall>

    constructor (answers: SignAnswer)
      ensures this.answers == answers && calls == []
    {
      this.answers := answers;
      calls := [];
    }

    method Sign(path: DerivationPath, frame: seq<byte>) returns (signature: Option<Bytes64>)
      modifies this`calls
      ensures calls == old(calls) + [SignCall(path, frame)]
      ensures signature == answers(SignCall(path, frame))
    {
      calls := calls + [SignCall(path, frame)];
      signature := answers(SignCall(path, frame));
    }
  }

  datatype SessionState = StateIdle | StateCollecting | StateAwaitingApproval

  class SigningSession {
    var state: SessionState
    const buffer: array<byte>
    var bufferedLen: nat
    var declaredTotal: u32
    var receivedLen: u32
    var path: Option<DerivationPath>
    ghost var judged: Option<Judgement>

    /** The buffer is 4096 bytes, and zero beyond the used prefix. */
    ghost predicate Shape()
      reads this, buffer
    {
      && buffer.Length == MAX_FRAME_LEN
      && bufferedLen <= MAX_FRAME_LEN
      && forall i :: bufferedLen <= i < MAX_FRAME_LEN ==> buffer[i] == 0
    }

    /** The session invariant, state by state. When idle, nothing of a frame is left: all 4096
        bytes are zero, and lengths and path are cleared. When approval is pending, the frame has
        passed every check of LAST with the recorded policy and key. */
    ghost predicate Valid()
      reads this, buffer
    {
      && Shape()
      && match state
         case StateIdle =>
           bufferedLen == 0 && declaredTotal == 0 && receivedLen == 0 && path == None && judged == None
         case StateCollecting =>
           0 < bufferedLen && bufferedLen == receivedLen < declaredTotal <= MAX_FRAME_LEN && path.Some?
         case StateAwaitingApproval =>
           2 <= bufferedLen && bufferedLen == receivedLen == declaredTotal && path.Some?
           && judged.Some? && PassedLast(judged.value, buffer[..bufferedLen])
    }

    ghost function View(): (v: SessionView)
      requires Valid()
      reads this, buffer
      ensures ValidView(v)
    {
      match state
      case StateIdle => Idle
      case StateCollecting => Collecting(path.value, declaredTotal, buffer[..bufferedLen])
      case StateAwaitingApproval => AwaitingApproval(path.value, buffer[..bufferedLen], judged.value)
    }

    constructor ()
      ensures Valid() && View() == Idle && fresh(buffer)
    {
      state := StateIdle;
      buffer := new byte[MAX_FRAME_LEN](_ => 0);
      bufferedLen, declaredTotal, receivedLen, path, judged := 0, 0, 0, None, None;
    }

    /** Zeroes the used prefix only; the invariant makes that enough. */
    method Wipe()
      requires Shape()
      modifies this, buffer
      ensures Valid() && View() == Idle
      ensures forall i :: 0 <= i < buffer.Length ==> buffer[i] == 0
    {
      for i := 0 to bufferedLen
        invariant Shape() && bufferedLen == old(bufferedLen)
        invariant forall k :: 0 <= k < i ==> buffer[k] == 0
      {
        buffer[i] := 0;
      }
      state := StateIdle;
      bufferedLen, declaredTotal, receivedLen, path, judged := 0, 0, 0, None, None;
    }

    method RejectReview()
      requires Shape()
      modifies this, buffer
      ensures Valid() && View() == Idle
    {
      Wipe();
    }

    method Reset()
      requires Shape()
      modifies this, buffer
      ensures Valid() && View() == Idle
    {
      Wipe();
    }

    /** The exact frame, while and only while a validated transaction awaits approval. */
    method PendingFrame() returns (frame: Option<seq<byte>>)
      requires Valid()
      ensures frame == if View().AwaitingApproval? then Some(View().frame) else None
    {
      if state != StateAwaitingApproval {
        return None;
      }
      return Some(buffer[..bufferedLen]);
    }

    /** Appends within the declared total and the buffer, or changes nothing. */
    method AppendChunk(chunk: seq<byte>) returns (r: Result<(), StatusWord>)
      requires Shape()
      modifies this`bufferedLen, this`receivedLen, buffer
      ensures Shape()
      ensures r == if old(receivedLen) + |chunk| >= 0x1_0000_0000 then Err(InternalFailure)
                   else if old(receivedLen) + |chunk| > declaredTotal then
                     Err(ProfileBoundExceeded)
                   else if old(bufferedLen) + |chunk| > MAX_FRAME_LEN then Err(InternalFailure)
                   else Ok(())
      ensures r.Ok? ==> bufferedLen == old(bufferedLen) + |chunk|
                        && receivedLen == old(receivedLen) + |chunk|
                        && buffer[..bufferedLen] == old(buffer[..bufferedLen]) + chunk
      ensures r.Err? ==> bufferedLen == old(bufferedLen) && receivedLen == old(receivedLen)
                         && buffer[..] == old(buffer[..])
    {
      var newReceived := receivedLen + |chunk|;
      if newReceived >= 0x1_0000_0000 {
        return Err(InternalFailure);
      }
      if newReceived > declaredTotal {
        return Err(ProfileBoundExceeded);
      }
      var newLen := bufferedLen + |chunk|;
      if newLen > buffer.Length {
        return Err(InternalFailure);
      }
      var start := bufferedLen;
      for i := 0 to |chunk|
        invariant buffer[..start] == old(buffer[..bufferedLen])
        invariant buffer[start..start + i] == chunk[..i]
        invariant forall k :: newLen <= k < MAX_FRAME_LEN ==> buffer[k] == 0
      {
        buffer[start + i] := chunk[i];
      }
      assert buffer[..newLen] == buffer[..start] + buffer[start..newLen];
      bufferedLen := newLen;
      receivedLen := newReceived;
      return Ok(());
    }

    /** Signs the pending frame with the captured path, once, and wipes whatever the signer says.
        In any other state no signer call is made. */
    method ApproveAndSign(signer: FrameSigner) returns (r: Result<Bytes64, StatusWord>)
      requires Valid()
      modifies this, buffer, signer`calls
      ensures Valid() && View() == Idle
      ensures match old(View())
              case AwaitingApproval(path, frame, _) =>
                && signer.calls == old(signer.calls) + [SignCall(path, frame)]
                && r == (match signer.answers(SignCall(path, frame))
                         case Some(signature) => Ok(signature)
                         case None => Err(InternalFailure))
              case _ => signer.calls == old(signer.calls) && r == Err(InvalidState)
    {
      if state != StateAwaitingApproval {
        Wipe();
        return Err(InvalidState);
      }
      var signature := signer.Sign(path.value, buffer[..bufferedLen]);
      Wipe();
      match signature
      case Some(s) => return Ok(s);
      case None => return Err(InternalFailure);
    }
  }

  method HandleFirst(session: SigningSession, data: seq<byte>) returns (outcome: DispatchOutcome)
    requires session.Valid()
    modifies session, session.buffer
    ensures session.Valid()
    ensures var s := if old(session.View()).Idle? then FirstStep(data) else Fail(InvalidState);
            session.View() == s.view && outcome == s.outcome
  {
    hide DecodePath, PassedLast, BeValue;
    if session.state != StateIdle {
      session.Wipe();
      return Failed(InvalidState);
    }
    if |data| < FIRST_MIN_DATA_LEN {
      session.Wipe();
      return Failed(InvalidData);
    }
    if |data| > FIRST_MAX_DATA_LEN {
      session.Wipe();
      return Failed(ProfileBoundExceeded);
    }
    var totalLength := BeValue(data[0..4]);
    if totalLength == 0 || totalLength > MAX_FRAME_LEN {
      session.Wipe();
      return Failed(ProfileBoundExceeded);
    }
    var path := DecodePath(data[4..25]);
    if path.Err? {
      session.Wipe();
      return Failed(InvalidData);
    }
    var chunk := data[25..];
    if totalLength == |chunk| {
      session.Wipe();
      return Failed(InvalidData);
    }
    session.declaredTotal := totalLength;
    session.path := Some(path.value);
    session.state := StateCollecting;
    var appended := session.AppendChunk(chunk);
    if appended.Err? {
      session.Wipe();
      return Failed(appended.error);
    }
    assert session.buffer[..session.bufferedLen] == chunk;
    return ACCEPTED;
  }

  method HandleContinue(session: SigningSession, data: seq<byte>) returns (outcome: DispatchOutcome)
    requires session.Valid()
    modifies session, session.buffer
    ensures session.Valid()
    ensures var s := ContinueStep(old(session.View()), data);
            session.View() == s.view && outcome == s.outcome
  {
    hide PassedLast;
    if session.state != StateCollecting {
      session.Wipe();
      return Failed(InvalidState);
    }
    if data == [] {
      session.Wipe();
      return Failed(InvalidData);
    }
    if |data| > MAX_CHUNK_LEN {
      session.Wipe();
      return Failed(ProfileBoundExceeded);
    }
    var remaining := session.declaredTotal - session.receivedLen;
    if remaining == |data| {
      session.Wipe();
      return Failed(InvalidData);
    }
    var appended := session.AppendChunk(data);
    if appended.Err? {
      session.Wipe();
      return Failed(appended.error);
    }
    return ACCEPTED;
  }

  method HandleLast(session: SigningSession, data: seq<byte>, deriver: PublicKeyDeriver,
                    policy: ClearSigningPolicy) returns (outcome: DispatchOutcome)
    requires session.Valid()
    modifies session, session.buffer, deriver`calls
    ensures session.Valid()
    ensures var s := LastStep(policy, deriver.answers, old(session.View()), data);
            session.View() == s.view && outcome == s.outcome
            && deriver.calls == old(deriver.calls) + s.derived
  {
    hide PassedLast, Judge;
    if session.state != StateCollecting {
      session.Wipe();
      return Failed(InvalidState);
    }
    if data == [] {
      session.Wipe();
      return Failed(InvalidData);
    }
    if |data| > MAX_CHUNK_LEN {
      session.Wipe();
      return Failed(ProfileBoundExceeded);
    }
    var appended := session.AppendChunk(data);
    if appended.Err? {
      session.Wipe();
      return Failed(appended.error);
    }
    if session.receivedLen != session.declaredTotal {
      session.Wipe();
      return Failed(InvalidData);
    }
    outcome := JudgeBuffered(session, deriver, policy);
  }

  /** The part of LAST that looks at the complete frame in the buffer. */
  method JudgeBuffered(session: SigningSession, deriver: PublicKeyDeriver, policy: ClearSigningPolicy)
    returns (outcome: DispatchOutcome)
    requires session.Shape() && 2 <= session.bufferedLen
    requires session.bufferedLen == session.receivedLen == session.declaredTotal
    requires session.path.Some?
    modifies session, session.buffer, deriver`calls
    ensures session.Valid()
    ensures var s := Judge(policy, deriver.answers, old(session.path.value),
                           old(session.buffer[..session.bufferedLen]));
            session.View() == s.view && outcome == s.outcome
            && deriver.calls == old(deriver.calls) + s.derived
  {
    hide SignatureFrames.DecodeSignatureFrame, Transaction.DecodeTransactionSignable, BuildReview;
    var framed := session.buffer[..session.bufferedLen];
    var frame := SignatureFrames.DecodeSignatureFrame(framed);
    if frame.Err? {
      session.Wipe();
      return Failed(InvalidData);
    }
    if |frame.value.payload| > MAX_TRANSACTION_PAYLOAD_LEN {
      session.Wipe();
      return Failed(ProfileBoundExceeded);
    }
    var transaction := Transaction.DecodeTransactionSignable(frame.value.payload);
    if transaction.Err? {
      session.Wipe();
      return Failed(InvalidData);
    }
    var key := deriver.Derive(session.path.value);
    if key.None? {
      session.Wipe();
      return Failed(InternalFailure);
    }
    if transaction.value.sender != key.value {
      session.Wipe();
      return Failed(InvalidData);
    }
    var review := BuildReview(frame.value, transaction.value, policy);
    if review.Err? {
      session.Wipe();
      return Failed(InvalidData);
    }
    assert Verdict(policy, Some(key.value), framed) == ReviewTransaction(review.value);
    session.judged := Some(Judgement(policy, key.value));
    session.state := StateAwaitingApproval;
    return ReviewTransaction(review.value);
  }

  method HandleSignTransaction(session: SigningSession, command: ApduCommand, deriver: PublicKeyDeriver,
                               policy: ClearSigningPolicy) returns (outcome: DispatchOutcome)
    requires session.Valid()
    modifies session, session.buffer, deriver`calls
    ensures session.Valid()
    ensures var s := SignStep(policy, deriver.answers, old(session.View()), command);
            session.View() == s.view && outcome == s.outcome
            && deriver.calls == old(deriver.calls) + s.derived
  {
    hide FirstStep, ContinueStep, LastStep;
    if command.p2 != 0 {
      session.Wipe();
      return Failed(InvalidP1P2);
    }
    if command.p1 == FIRST {
      FirstDerivesNothing(command.data);
      outcome := HandleFirst(session, command.data);
    } else if command.p1 == CONTINUE {
      ContinueDerivesNothing(session.View(), command.data);
      outcome := HandleContinue(session, command.data);
    } else if command.p1 == LAST {
      outcome := HandleLast(session, command.data, deriver, policy);
    } else {
      session.Wipe();
      outcome := Failed(InvalidP1P2);
    }
  }

  lemma FirstDerivesNothing(data: seq<byte>)
    ensures FirstStep(data).derived == []
  {
    hide DecodePath, BeValue;
  }

  lemma ContinueDerivesNothing(view: SessionView, data: seq<byte>)
    ensures ContinueStep(view, data).derived == []
  {
  }

  method HandleVerifyPublicKey(command: ApduCommand, deriver: PublicKeyDeriver)
    returns (outcome: DispatchOutcome)
    modifies deriver`calls
    ensures var s := VerifyStep(deriver.answers, command);
            outcome == s.outcome && deriver.calls == old(deriver.calls) + s.derived
  {
    hide DecodePath;
    if command.p1 != 0x01 || command.p2 != 0x00 {
      return Failed(InvalidP1P2);
    }
    var path := DecodePath(command.data);
    if path.Err? {
      return Failed(InvalidData);
    }
    var publicKey := deriver.Derive(path.value);
    if publicKey.None? {
      return Failed(InternalFailure);
    }
    return ReviewPublicKey(path.value, publicKey.value);
  }

  method HandleGetConfiguration(command: ApduCommand) returns (outcome: DispatchOutcome)
    ensures outcome == PlainStep(command, CONFIGURATION).outcome
  {
    if command.p1 != 0 || command.p2 != 0 {
      return Failed(InvalidP1P2);
    }
    if command.data != [] {
      return Failed(InvalidData);
    }
    return Reply(Success, CONFIGURATION);
  }

  method HandleResetSigning(session: SigningSession, command: ApduCommand)
    returns (outcome: DispatchOutcome)
    requires session.Valid()
    modifies session, session.buffer
    ensures session.Valid()
    ensures outcome == PlainStep(command, []).outcome
    ensures outcome == ACCEPTED ==> session.View() == Idle
  {
    if command.p1 != 0 || command.p2 != 0 {
      return Failed(InvalidP1P2);
    }
    if command.data != [] {
      return Failed(InvalidData);
    }
    session.Reset();
    return ACCEPTED;
  }

  /** One command: the next session and the outcome are those of DispatchStep, and the deriver was
      asked for exactly the paths that it lists. */
  method Dispatch(session: SigningSession, command: ApduCommand, deriver: PublicKeyDeriver,
                  policy: ClearSigningPolicy) returns (outcome: DispatchOutcome)
    requires session.Valid()
    modifies session, session.buffer, deriver`calls
    ensures session.Valid()
    ensures var s := DispatchStep(policy, deriver.answers, old(session.View()), command);
            session.View() == s.view && outcome == s.outcome
            && deriver.calls == old(deriver.calls) + s.derived
    ensures outcome.Reply? && outcome.status != Success ==>
              session.View() == Idle && forall i :: 0 <= i < session.buffer.Length ==> session.buffer[i] == 0
  {
    hide SignStep, VerifyStep, PlainStep;
    DispatchKeeps(policy, deriver.answers, session.View(), command);
    if command.cla != CLA {
      session.Wipe();
      return Failed(UnsupportedCla);
    }
    var conflicts :=
      if command.ins == GET_CONFIGURATION || command.ins == VERIFY_PUBLIC_KEY then session.state != StateIdle
      else command.ins == SIGN_TRANSACTION && session.state == StateAwaitingApproval;
    if conflicts {
      session.Wipe();
      return Failed(InvalidState);
    }
    if command.ins == GET_CONFIGURATION {
      outcome := HandleGetConfiguration(command);
      PlainEndsIdle(command, CONFIGURATION);
    } else if command.ins == VERIFY_PUBLIC_KEY {
      VerifyEndsIdle(deriver.answers, command);
      outcome := HandleVerifyPublicKey(command, deriver);
    } else if command.ins == SIGN_TRANSACTION {
      outcome := HandleSignTransaction(session, command, deriver, policy);
    } else if command.ins == RESET_SIGNING {
      outcome := HandleResetSigning(session, command);
      PlainEndsIdle(command, []);
    } else {
      outcome := Failed(UnsupportedIns);
    }
    if outcome.Reply? && outcome.status != Success {
      session.Wipe();
    }
  }

  lemma PlainEndsIdle(c: ApduCommand, response: seq<byte>)
    ensures PlainStep(c, response).view == Idle && PlainStep(c, response).derived == []
    ensures PlainStep(c, response).outcome.Reply?
    ensures PlainStep(c, response).outcome.status == Success ==> PlainStep(c, response).outcome.response == response
  {
  }

  lemma VerifyEndsIdle(derive: KeyAnswer, c: ApduCommand)
    ensures VerifyStep(derive, c).view == Idle
  {
    hide DecodePath;
  }
}
