// What the host gets for each command, said once more from the outside, with the protocol's own
// numbers: exactly when a command succeeds or goes to review, and which status refuses it otherwise.
module CommandTable {
  import opened Wrappers
  import opened Bytes
  import opened Path
  import opened Policy
  import opened Review
  import opened TransactionCodec
  import opened SessionSteps
  import opened Chunking
  import SignatureFrames
  import Transaction

  // ----- FIRST, CONTINUE and LAST -----

  /** FIRST is accepted exactly on a total, a path and a chunk that together form its data: a chunk of
      1 to 230 bytes, shorter than a total of at most 4096. */
  lemma FirstExactly(data: seq<byte>, path: DerivationPath, total: nat, chunk: seq<byte>)
    ensures FirstStep(data) == Step(Collecting(path, total, chunk), Reply(Success, []), [])
            <==> 1 <= |chunk| <= 230 && |chunk| < total <= 4096 && data == FirstData(path, total, chunk)
  {
    hide BeBytes, BeValue, EncodePath, DecodePath;
    if FirstStep(data) == Step(Collecting(path, total, chunk), Reply(Success, []), []) {
      BeBytesOfValue(data[0..4]);
      PathExactly(data[4..25], path);
      assert data == data[0..4] + data[4..25] + data[25..];
    }
    if 1 <= |chunk| <= 230 && |chunk| < total <= 4096 && data == FirstData(path, total, chunk) {
      FirstStepAccepts(path, total, chunk);
    }
  }

  predicate FirstAccepts(data: seq<byte>) {
    26 <= |data| <= 255 && DecodePath(data[4..25]).Ok? && |data| - 25 < BeValue(data[0..4]) <= 4096
  }

  lemma FirstTable(data: seq<byte>)
    ensures FirstStep(data).outcome.Reply?
    ensures var s := FirstStep(data);
            && (s.outcome.status == Success <==> FirstAccepts(data))
            && (FirstAccepts(data) ==>
                  s == Step(Collecting(DecodePath(data[4..25]).value, BeValue(data[0..4]), data[25..]),
                            Reply(Success, []), []))
            && (s.outcome.status != Success ==> s == Step(Idle, Reply(s.outcome.status, []), []))
            && (|data| < 26 ==> s.outcome.status == InvalidData)
            && (|data| > 255 ==> s.outcome.status == ProfileBoundExceeded)
            && (26 <= |data| <= 255 ==>
                  var total, chunkLength := BeValue(data[0..4]), |data| - 25;
                  && (total == 0 || total > 4096 ==> s.outcome.status == ProfileBoundExceeded)
                  && (1 <= total <= 4096 && DecodePath(data[4..25]).Err? ==> s.outcome.status == InvalidData)
                  && (1 <= total <= 4096 && DecodePath(data[4..25]).Ok? ==>
                        && (total == chunkLength ==> s.outcome.status == InvalidData)
                        && (total < chunkLength ==> s.outcome.status == ProfileBoundExceeded)))
  {
    hide BeValue, DecodePath;
  }

  predicate Continues(view: SessionView, data: seq<byte>) {
    view.Collecting? && 1 <= |data| <= 230 && |view.received| + |data| < view.declared
  }

  lemma ContinueTable(view: SessionView, data: seq<byte>)
    ensures ContinueStep(view, data).outcome.Reply?
    ensures var s := ContinueStep(view, data);
            && (s.outcome.status == Success <==> Continues(view, data))
            && (s.outcome.status == Success ==>
                  s == Step(Collecting(view.path, view.declared, view.received + data), Reply(Success, []), []))
            && (s.outcome.status != Success ==> s == Step(Idle, Reply(s.outcome.status, []), []))
            && (!view.Collecting? ==> s.outcome.status == InvalidState)
            && (view.Collecting? ==>
                  && (data == [] ==> s.outcome.status == InvalidData)
                  && (|data| > 230 ==> s.outcome.status == ProfileBoundExceeded)
                  && (1 <= |data| <= 230 && |view.received| + |data| == view.declared ==>
                        s.outcome.status == InvalidData)
                  && (1 <= |data| <= 230 && |view.received| + |data| > view.declared ==>
                        s.outcome.status == ProfileBoundExceeded))
  {
  }

  predicate Completes(view: SessionView, data: seq<byte>) {
    view.Collecting? && 1 <= |data| <= 230 && |view.received| + |data| == view.declared
  }

  lemma LastTable(p: ClearSigningPolicy, derive: KeyAnswer, view: SessionView, data: seq<byte>)
    ensures var s := LastStep(p, derive, view, data);
            && (Completes(view, data) ==> s == Judge(p, derive, view.path, view.received + data))
            && (!Completes(view, data) ==>
                  s.outcome.Reply? && s == Step(Idle, Reply(s.outcome.status, []), [])
                  && (!view.Collecting? ==> s.outcome.status == InvalidState)
                  && (view.Collecting? ==>
                        && (data == [] ==> s.outcome.status == InvalidData)
                        && (|data| > 230 ==> s.outcome.status == ProfileBoundExceeded)
                        && (1 <= |data| <= 230 && |view.received| + |data| > view.declared ==>
                              s.outcome.status == ProfileBoundExceeded)
                        && (1 <= |data| <= 230 && |view.received| + |data| < view.declared ==>
                              s.outcome.status == InvalidData)))
  {
    hide Judge;
  }

  /** LAST never succeeds by itself: it goes to review, or is refused with one of four statuses. */
  lemma LastStatuses(p: ClearSigningPolicy, derive: KeyAnswer, view: SessionView, data: seq<byte>)
    ensures match LastStep(p, derive, view, data).outcome
            case Reply(status, response) =>
              && response == []
              && (status == InvalidState || status == InvalidData || status == ProfileBoundExceeded
                  || status == InternalFailure)
              && (status == InvalidState <==> !view.Collecting?)
            case ReviewTransaction(_) => view.Collecting?
            case ReviewPublicKey(_, _) => false
  {
    hide Judge, CarriesTransaction, CarriesTooMuch;
    LastTable(p, derive, view, data);
    if view.Collecting? {
      JudgeTable(p, derive, view.path, view.received + data);
      JudgeKeeps(p, derive, view.path, view.received + data);
    }
  }

  // ----- The judgement of a complete frame -----

  predicate Carries(frame: seq<byte>, f: SignatureFrames.SignatureFrame, t: Transaction.TransactionSignable) {
    && SignatureFrames.WellFormed(f) && WellFormed(t) && f.payload == EncodeTransaction(t)
    && frame == SignatureFrames.EncodeSignatureFrame(f)
  }

  /** The frame is the encoding of a well-formed frame that carries a well-formed transaction. */
  ghost predicate CarriesTransaction(frame: seq<byte>) {
    exists f: SignatureFrames.SignatureFrame, t: Transaction.TransactionSignable :: Carries(frame, f, t)
  }

  ghost predicate CarriesTooMuch(frame: seq<byte>) {
    exists f: SignatureFrames.SignatureFrame ::
      SignatureFrames.WellFormed(f) && |f.payload| > 3072 && frame == SignatureFrames.EncodeSignatureFrame(f)
  }

  /** A key is derived exactly for a frame that carries a transaction. */
  lemma DerivesExactly(frame: seq<byte>)
    ensures ReachesDerivation(frame) <==> CarriesTransaction(frame)
  {
    hide SignatureFrames.DecodeSignatureFrame, Transaction.DecodeTransactionSignable, WellFormed,
         SignatureFrames.WellFormed, SignatureFrames.EncodeSignatureFrame, EncodeTransaction;
    if ReachesDerivation(frame) {
      var f := SignatureFrames.DecodeSignatureFrame(frame).value;
      var t := Transaction.DecodeTransactionSignable(f.payload).value;
      SignatureFrames.SignatureFrameExactly(frame, f);
      TransactionExactly(f.payload, t);
      assert Carries(frame, f, t);
    }
    if CarriesTransaction(frame) {
      var f: SignatureFrames.SignatureFrame, t: Transaction.TransactionSignable :| Carries(frame, f, t);
      SignatureFrames.SignatureFrameExactly(frame, f);
      TransactionExactly(f.payload, t);
      TransactionLength(t);
    }
  }

  lemma TooMuchExactly(frame: seq<byte>)
    ensures CarriesTooMuch(frame)
            <==> SignatureFrames.DecodeSignatureFrame(frame).Ok?
                 && |SignatureFrames.DecodeSignatureFrame(frame).value.payload| > 3072
  {
    hide SignatureFrames.DecodeSignatureFrame, SignatureFrames.WellFormed, SignatureFrames.EncodeSignatureFrame;
    if SignatureFrames.DecodeSignatureFrame(frame).Ok? {
      SignatureFrames.SignatureFrameExactly(frame, SignatureFrames.DecodeSignatureFrame(frame).value);
    }
    if CarriesTooMuch(frame) {
      var f: SignatureFrames.SignatureFrame :|
        SignatureFrames.WellFormed(f) && |f.payload| > 3072 && frame == SignatureFrames.EncodeSignatureFrame(f);
      SignatureFrames.SignatureFrameExactly(frame, f);
    }
  }

  /** Which status a complete frame is refused with, and whether a key is derived for it. */
  lemma JudgeTable(p: ClearSigningPolicy, derive: KeyAnswer, path: DerivationPath, frame: seq<byte>)
    ensures var s := Judge(p, derive, path, frame);
            && s.derived == (if CarriesTransaction(frame) then [path] else [])
            && (s.outcome.Reply? ==>
                  && s == Step(Idle, Reply(s.outcome.status, []), s.derived)
                  && (s.outcome.status == ProfileBoundExceeded || s.outcome.status == InternalFailure
                      || s.outcome.status == InvalidData))
            && (s.outcome == Reply(ProfileBoundExceeded, []) <==> CarriesTooMuch(frame))
            && (s.outcome == Reply(InternalFailure, []) <==> CarriesTransaction(frame) && derive(path) == None)
            && (s.outcome == Reply(InvalidData, [])
                <==> !CarriesTooMuch(frame)
                     && !(CarriesTransaction(frame) && derive(path) == None)
                     && !(ReviewOf(p, frame).Some? && derive(path) == Some(ReviewOf(p, frame).value.sender)))
  {
    hide SignatureFrames.DecodeSignatureFrame, Transaction.DecodeTransactionSignable, CarriesTransaction,
         CarriesTooMuch, BuildReview, ReviewOf;
    DerivesExactly(frame);
    TooMuchExactly(frame);
    var s := Judge(p, derive, path, frame);
    if s.outcome.ReviewTransaction? {
      VerdictIsReview(p, derive(path), frame, s.outcome.review);
    }
    if ReviewOf(p, frame).Some? {
      VerdictIsReview(p, derive(path), frame, ReviewOf(p, frame).value);
    }
  }

  // ----- Every command -----

  /** A sign-transaction command while no approval is pending. */
  lemma SignTable(p: ClearSigningPolicy, derive: KeyAnswer, view: SessionView, c: ApduCommand)
    requires !view.AwaitingApproval?
    ensures var outcome := SignStep(p, derive, view, c).outcome;
            && !outcome.ReviewPublicKey?
            && (outcome.Reply? && outcome.status == Success
                <==> c.p2 == 0 && ((c.p1 == 0x00 && view.Idle? && FirstAccepts(c.data))
                                   || (c.p1 == 0x01 && Continues(view, c.data))))
            && (outcome.Reply? && outcome.status == InvalidP1P2 <==> c.p1 > 2 || c.p2 != 0)
            && (outcome.Reply? && outcome.status == InvalidState
                <==> c.p2 == 0 && ((c.p1 == 0x00 && !view.Idle?)
                                   || ((c.p1 == 0x01 || c.p1 == 0x02) && !view.Collecting?)))
            && (outcome.Reply? ==>
                  && outcome.status != UnsupportedCla && outcome.status != UnsupportedIns
                  && outcome.status != UserRejected && outcome.response == [])
  {
    hide FirstStep, ContinueStep, LastStep, DecodePath, BeValue;
    FirstTable(c.data);
    ContinueTable(view, c.data);
    LastStatuses(p, derive, view, c.data);
  }

  /** Reset succeeds in every state and ends idle. */
  lemma ResetSucceeds(p: ClearSigningPolicy, derive: KeyAnswer, view: SessionView)
    ensures DispatchStep(p, derive, view, ApduCommand(0xE0, 0x06, 0, 0, [])) == Step(Idle, Reply(Success, []), [])
  {
  }

  /** When idle, the configuration is reported as these six bytes. */
  lemma ConfigurationIsReported(p: ClearSigningPolicy, derive: KeyAnswer)
    ensures DispatchStep(p, derive, Idle, ApduCommand(0xE0, 0x00, 0, 0, []))
            == Step(Idle, Reply(Success, [0, 1, 0, 1, 0, 0]), [])
  {
  }

  /** Exactly these commands succeed by themselves. */
  lemma SuccessExactly(p: ClearSigningPolicy, derive: KeyAnswer, view: SessionView, c: ApduCommand)
    ensures var outcome := DispatchStep(p, derive, view, c).outcome;
            outcome.Reply? && outcome.status == Success
            <==> || (c == ApduCommand(0xE0, 0x00, 0, 0, []) && view.Idle?)
                 || c == ApduCommand(0xE0, 0x06, 0, 0, [])
                 || (c == ApduCommand(0xE0, 0x04, 0x00, 0, c.data) && view.Idle? && FirstAccepts(c.data))
                 || (c == ApduCommand(0xE0, 0x04, 0x01, 0, c.data) && Continues(view, c.data))
  {
    hide SignStep, DecodePath, FirstAccepts;
    if !view.AwaitingApproval? {
      SignTable(p, derive, view, c);
    }
  }

  /** Exactly this command, on an idle session, puts a public key up for review. */
  lemma KeyReviewExactly(p: ClearSigningPolicy, derive: KeyAnswer, view: SessionView, c: ApduCommand,
                         path: DerivationPath, key: Bytes32)
    ensures DispatchStep(p, derive, view, c).outcome == ReviewPublicKey(path, key)
            <==> view.Idle? && c == ApduCommand(0xE0, 0x02, 0x01, 0, EncodePath(path)) && derive(path) == Some(key)
    ensures DispatchStep(p, derive, view, c).outcome == ReviewPublicKey(path, key) ==>
              DispatchStep(p, derive, view, c) == Step(Idle, ReviewPublicKey(path, key), [path])
  {
    hide SignStep, DecodePath, EncodePath;
    PathExactly(c.data, path);
    if !view.AwaitingApproval? {
      SignTable(p, derive, view, c);
    }
  }

  /** Exactly a LAST that completes the frame of a reviewable review, for the key derived from the
      captured path, puts that review up. */
  lemma TransactionReviewExactly(p: ClearSigningPolicy, derive: KeyAnswer, view: SessionView, c: ApduCommand,
                                 r: ClearSigningReview)
    ensures DispatchStep(p, derive, view, c).outcome == ReviewTransaction(r)
            <==> && c == ApduCommand(0xE0, 0x04, 0x02, 0, c.data) && Completes(view, c.data)
                 && Reviewable(p, r) && derive(view.path) == Some(r.sender)
                 && view.received + c.data == SignedBytesOf(p, r)
  {
    hide FirstStep, ContinueStep, LastStep, Verdict, ReachesDerivation, Reviewable, SignedBytesOf, DecodePath;
    FirstTable(c.data);
    ContinueTable(view, c.data);
    LastTable(p, derive, view, c.data);
    if view.Collecting? {
      VerdictExactly(p, derive(view.path), view.received + c.data, r);
    }
  }

  /** Which commands are refused for their header or for the session's state; no command is answered
      as rejected by the user. */
  lemma RefusalTable(p: ClearSigningPolicy, derive: KeyAnswer, view: SessionView, c: ApduCommand)
    ensures var s := DispatchStep(p, derive, view, c);
            && (s.outcome == Reply(UnsupportedCla, []) <==> c.cla != 0xE0)
            && (s.outcome == Reply(UnsupportedIns, [])
                <==> c.cla == 0xE0 && c.ins != 0x00 && c.ins != 0x02 && c.ins != 0x04 && c.ins != 0x06)
            && (s.outcome == Reply(InvalidState, [])
                <==> c.cla == 0xE0
                     && (|| ((c.ins == 0x00 || c.ins == 0x02) && !view.Idle?)
                         || (c.ins == 0x04 && view.AwaitingApproval?)
                         || (c.ins == 0x04 && c.p1 == 0x00 && c.p2 == 0 && !view.Idle?)
                         || (c.ins == 0x04 && (c.p1 == 0x01 || c.p1 == 0x02) && c.p2 == 0 && !view.Collecting?)))
            && (s.outcome == Reply(InvalidP1P2, [])
                <==> c.cla == 0xE0
                     && (|| (c.ins == 0x00 && view.Idle? && (c.p1 != 0 || c.p2 != 0))
                         || (c.ins == 0x02 && view.Idle? && (c.p1 != 1 || c.p2 != 0))
                         || (c.ins == 0x04 && !view.AwaitingApproval? && (c.p1 > 2 || c.p2 != 0))
                         || (c.ins == 0x06 && (c.p1 != 0 || c.p2 != 0))))
            && s.outcome != Reply(UserRejected, [])
            && (s.outcome.Reply? && s.outcome.status != Success ==> s.outcome.response == [])
  {
    hide SignStep, DecodePath, FirstAccepts;
    if !view.AwaitingApproval? {
      SignTable(p, derive, view, c);
    }
  }

  /** How every other command is answered: a chunk command as its own step says, and each of the rest
      by the one thing that is wrong with it. */
  lemma RoutingTable(p: ClearSigningPolicy, derive: KeyAnswer, view: SessionView, data: seq<byte>)
    ensures view.Idle? ==> DispatchStep(p, derive, view, ApduCommand(0xE0, 0x04, 0x00, 0, data)) == FirstStep(data)
    ensures !view.AwaitingApproval? ==>
              && DispatchStep(p, derive, view, ApduCommand(0xE0, 0x04, 0x01, 0, data)) == ContinueStep(view, data)
              && DispatchStep(p, derive, view, ApduCommand(0xE0, 0x04, 0x02, 0, data))
                 == LastStep(p, derive, view, data)
    ensures view.Idle? && DecodePath(data).Err? ==>
              DispatchStep(p, derive, view, ApduCommand(0xE0, 0x02, 0x01, 0, data))
              == Step(Idle, Reply(InvalidData, []), [])
    ensures view.Idle? && DecodePath(data).Ok? && derive(DecodePath(data).value) == None ==>
              DispatchStep(p, derive, view, ApduCommand(0xE0, 0x02, 0x01, 0, data))
              == Step(Idle, Reply(InternalFailure, []), [DecodePath(data).value])
    ensures view.Idle? && data != [] ==>
              DispatchStep(p, derive, view, ApduCommand(0xE0, 0x00, 0, 0, data))
              == Step(Idle, Reply(InvalidData, []), [])
    ensures data != [] ==>
              DispatchStep(p, derive, view, ApduCommand(0xE0, 0x06, 0, 0, data))
              == Step(Idle, Reply(InvalidData, []), [])
  {
    hide FirstStep, ContinueStep, LastStep, DecodePath;
  }
}
