// Safety of signing over whole runs of the device loop, and its converse.
module SigningSafety {
  import opened Wrappers
  import opened Bytes
  import opened Path
  import opened Policy
  import opened FactText
  import opened Review
  import opened ReviewUi
  import opened Display
  import opened SessionSteps
  import opened Apdu
  import opened Chunking
  import opened CommandTable
  import opened Gathering
  import opened Device

  /** The commands of a run. */
  function CommandsOf(inputs: seq<LoopInput>): (commands: seq<Option<ApduCommand>>)
    ensures |commands| == |inputs|
    ensures forall i :: 0 <= i < |inputs| ==> commands[i] == inputs[i].command
  {
    seq(|inputs|, i requires 0 <= i < |inputs| => inputs[i].command)
  }

  /** Between turns no approval is ever pending, and a session that is collecting holds exactly what
      one uninterrupted sequence delivered. */
  lemma {:induction false} LoopHeadKeeps(p: ClearSigningPolicy, inputs: seq<LoopInput>)
    ensures !ViewAfter(p, inputs).AwaitingApproval?
    ensures ValidView(ViewAfter(p, inputs))
    ensures HoldsGathered(CommandsOf(inputs), ViewAfter(p, inputs))
    decreases |inputs|
  {
    hide TurnOf, Gathered;
    if inputs != [] {
      var before, input := inputs[..|inputs| - 1], inputs[|inputs| - 1];
      LoopHeadKeeps(p, before);
      TurnKeeps(p, ViewAfter(p, before), input);
      if input.command.Some? {
        DispatchGathers(p, input.derive, CommandsOf(before), ViewAfter(p, before), input.command.value);
        assert CommandsOf(inputs) == CommandsOf(before) + [input.command];
      }
    }
  }

  /** A turn keeps the session invariant, resolves what its command put up, and otherwise leaves the
      session as its command does, or idle. */
  lemma TurnKeeps(p: ClearSigningPolicy, view: SessionView, input: LoopInput)
    requires !view.AwaitingApproval? && ValidView(view)
    ensures var t := TurnOf(p, view, input);
            && !t.view.AwaitingApproval? && ValidView(t.view)
            && (t.view == Idle
                || (input.command.Some?
                    && t.view == DispatchStep(p, input.derive, view, input.command.value).view))
  {
    hide DispatchStep, FormatReviewFacts, HexText, PassedLast;
    if input.command.Some? {
      DispatchKeeps(p, input.derive, view, input.command.value);
    }
  }

  /** A turn that calls the signer: its command put the frame up, the user was shown the facts and
      approved, and the one call is on that frame and path. */
  lemma SigningTurn(p: ClearSigningPolicy, view: SessionView, input: LoopInput)
    requires TurnOf(p, view, input).signed != []
    ensures input.command.Some? && input.approve
    ensures var t, s := TurnOf(p, view, input), DispatchStep(p, input.derive, view, input.command.value);
            && s.view.AwaitingApproval? && s.outcome.ReviewTransaction?
            && t.signed == [SignCall(s.view.path, s.view.frame)] && t.derived == s.derived
            && FormatReviewFacts(s.outcome.review).Ok?
            && t.shown == Some(TransactionScreen(FormatReviewFacts(s.outcome.review).value))
  {
    hide DispatchStep, FormatReviewFacts, HexText;
  }

  /** What justifies a signer call made in turn `i` of a run. Inputs `start` to `i` are one
      uninterrupted FIRST, CONTINUE, ..., LAST sequence that delivered the call's path and exactly
      its bytes; the key derived from that path in that turn is the decoded sender; the review of
      those bytes was formatted, shown and approved in that turn; the turn made no other signer
      call; and the bytes signed are the bytes that the facts shown stand for. */
  predicate Justified(p: ClearSigningPolicy, inputs: seq<LoopInput>, start: nat, i: nat, call: SignCall)
    requires i < |inputs|
  {
    var t := TurnAt(p, inputs, i);
    && t.signed == [call]
    && Delivered(CommandsOf(inputs), start, i, call.path, call.frame)
    && ReviewOf(p, call.frame).Some?
    && inputs[i].derive(call.path) == Some(ReviewOf(p, call.frame).value.sender)
    && t.derived == [call.path]
    && inputs[i].approve
    && FactsOf(p, call.frame).Some? && |FactsOf(p, call.frame).value| == 32
    && t.shown == Some(TransactionScreen(FactsOf(p, call.frame).value))
    && BytesShownBy(p, FactsOf(p, call.frame).value) == call.frame
  }

  ghost predicate JustifiedBySome(p: ClearSigningPolicy, inputs: seq<LoopInput>, i: nat, call: SignCall)
    requires i < |inputs|
  {
    exists start: nat :: Justified(p, inputs, start, i, call)
  }

  /** Signing safety: in every run, every turn that calls the signer is justified. */
  lemma {:induction false} EverySignatureIsJustified(p: ClearSigningPolicy, inputs: seq<LoopInput>, i: nat)
    returns (start: nat)
    requires i < |inputs| && TurnAt(p, inputs, i).signed != []
    ensures Justified(p, inputs, start, i, TurnAt(p, inputs, i).signed[0])
  {
    hide TurnOf, ReviewOf, BytesShownBy, FormatReviewFacts, DispatchStep, Delivered, HoldsGathered, PassedLast,
         ViewAfter;
    var before, input := inputs[..i], inputs[i];
    var view := ViewAfter(p, before);
    LoopHeadKeeps(p, before);
    SigningTurn(p, view, input);
    start := PendingIsDelivered(p, input.derive, CommandsOf(before), view, input.command.value);
    assert CommandsOf(inputs)[..i + 1] == CommandsOf(before) + [input.command];
    var call := TurnAt(p, inputs, i).signed[0];
    DeliveredInPrefix(CommandsOf(inputs), i + 1, start, i, call.path, call.frame);
    DisplayDeterminesBytes(p, call.frame);
  }

  /** The same of the log that the signer keeps: each of its entries is justified, by a turn of its
      own, and the turns come in the order of the entries. */
  lemma {:induction false} EveryLoggedSignatureIsJustified(p: ClearSigningPolicy, inputs: seq<LoopInput>)
    ensures var log, turns := SignedBy(p, inputs), SigningTurns(p, inputs);
            && |log| == |turns|
            && (forall j, k :: 0 <= j < k < |turns| ==> turns[j] < turns[k])
            && (forall k :: 0 <= k < |log| ==>
                  turns[k] < |inputs|
                  && JustifiedBySome(p, inputs, turns[k], log[k]))
  {
    hide TurnAt, Justified, SignedBy, SigningTurns;
    LogIsPerTurn(p, inputs);
    var log, turns := SignedBy(p, inputs), SigningTurns(p, inputs);
    forall k | 0 <= k < |log|
      ensures turns[k] < |inputs| && JustifiedBySome(p, inputs, turns[k], log[k])
    {
      var start := EverySignatureIsJustified(p, inputs, turns[k]);
    }
  }

  /** Across any two runs under one policy: if two signing turns showed the same facts, they signed
      the same bytes. */
  lemma SameDisplaySignsSameBytes(p: ClearSigningPolicy, xs: seq<LoopInput>, i: nat,
                                  ys: seq<LoopInput>, j: nat)
    requires i < |xs| && TurnAt(p, xs, i).signed != []
    requires j < |ys| && TurnAt(p, ys, j).signed != []
    requires TurnAt(p, xs, i).shown == TurnAt(p, ys, j).shown
    ensures TurnAt(p, xs, i).signed[0].frame == TurnAt(p, ys, j).signed[0].frame
  {
    hide TurnAt, BytesShownBy, FactsOf, ReviewOf, Delivered;
    var a := EverySignatureIsJustified(p, xs, i);
    var b := EverySignatureIsJustified(p, ys, j);
  }

  /** A public key is returned exactly when an idle device gets a well-formed request, derives the
      key for its path, and the user approves; and then it is the key whose text was shown. */
  lemma VerifiedKeyWasShown(p: ClearSigningPolicy, view: SessionView, input: LoopInput, data: seq<byte>)
    requires input.command == Some(ApduCommand(CLA, VERIFY_PUBLIC_KEY, 1, 0, data))
    ensures var t, path := TurnOf(p, view, input), DecodePath(data);
            && (t.reply.value.status == Success
                <==> view.Idle? && path.Ok? && input.derive(path.value).Some? && input.approve)
            && (t.reply.value.status == Success ==>
                  && t.derived == [path.value] && input.derive(path.value) == Some(t.reply.value.data)
                  && t.shown.Some? && t.shown.value.AddressScreen?
                  && ReadHex(t.shown.value.address) == t.reply.value.data)
            && (t.reply.value.status != Success ==> t.reply.value.data == [])
  {
    hide DecodePath, HexText, ReadHex;
    var path := DecodePath(data);
    if path.Ok? && input.derive(path.value).Some? {
      HexReadsBack(input.derive(path.value).value);
    }
  }

  /** A LAST by itself never replies success: it fails or goes to review. */
  lemma LastNeverJustSucceeds(p: ClearSigningPolicy, derive: KeyAnswer, view: SessionView, data: seq<byte>)
    ensures match DispatchStep(p, derive, view, SignCommand(LAST, data)).outcome
            case Reply(status, _) => status != Success
            case ReviewPublicKey(_, _) => false
            case ReviewTransaction(_) => true
  {
    hide LastStep;
    LastStatuses(p, derive, view, data);
  }

  /** A successful reply to LAST is the signer's own answer for the one call that the turn made. */
  lemma SuccessAfterLastIsASignature(p: ClearSigningPolicy, view: SessionView, input: LoopInput)
    requires IsChunk(input.command, LAST)
    requires TurnOf(p, view, input).reply.value.status == Success
    ensures var t := TurnOf(p, view, input);
            && |t.signed| == 1 && input.sign(t.signed[0]).Some?
            && t.reply.value.data == input.sign(t.signed[0]).value
  {
    hide DispatchStep, FormatReviewFacts, HexText;
    LastNeverJustSucceeds(p, input.derive, view, input.command.value.data);
  }

  // ----- What the host and the user get in each turn -----

  /** A command header that does not decode resets the session. */
  lemma UndecodableTurn(p: ClearSigningPolicy, view: SessionView, input: LoopInput)
    requires input.command == None
    ensures TurnOf(p, view, input) == Turn(Idle, [], None, [], None)
  {
  }

  /** A plain reply goes out with its own status and bytes; nothing is shown or signed; and the
      session stays as the command left it unless the reply could not be sent. */
  lemma PlainTurn(p: ClearSigningPolicy, view: SessionView, input: LoopInput)
    requires input.command.Some? && DispatchStep(p, input.derive, view, input.command.value).outcome.Reply?
    ensures var s := DispatchStep(p, input.derive, view, input.command.value);
            TurnOf(p, view, input)
            == Turn(if input.sendOk then s.view else Idle, s.derived, None, [],
                    Some(WireReply(s.outcome.status, s.outcome.response)))
  {
    hide DispatchStep;
    RefusalTable(p, input.derive, view, input.command.value);
  }

  /** A well-formed request for the key of a path, on an idle device that derives one: its text is
      shown, and the reply is the key or a rejection as the user says. */
  lemma {:induction false} KeyTurn(p: ClearSigningPolicy, view: SessionView, input: LoopInput,
                                   path: DerivationPath, key: Bytes32)
    requires view.Idle? && input.command == Some(ApduCommand(0xE0, 0x02, 0x01, 0, EncodePath(path)))
    requires input.derive(path) == Some(key)
    ensures TurnOf(p, view, input)
            == Turn(Idle, [path], Some(AddressScreen(HexText(key))), [],
                    Some(if input.approve then WireReply(Success, key) else WireReply(UserRejected, [])))
  {
    hide DispatchStep, EncodePath, HexText;
    KeyReviewExactly(p, input.derive, view, input.command.value, path, key);
  }

  /** A command that has a whole frame judged, when the policy reviews the frame for the derived key:
      the facts are shown, if they can be, and on approval the signer is called and its answer is the
      reply. The session ends idle whatever happens. */
  lemma JudgedTurn(p: ClearSigningPolicy, view: SessionView, input: LoopInput, path: DerivationPath,
                   frame: seq<byte>)
    requires input.command.Some?
    requires DispatchStep(p, input.derive, view, input.command.value) == Judge(p, input.derive, path, frame)
    requires ReviewOf(p, frame).Some? && input.derive(path) == Some(ReviewOf(p, frame).value.sender)
    ensures var call := SignCall(path, frame);
            TurnOf(p, view, input)
            == match FactsOf(p, frame)
               case None => Turn(Idle, [path], None, [], Some(WireReply(InternalFailure, [])))
               case Some(facts) =>
                 if !input.approve then
                   Turn(Idle, [path], Some(TransactionScreen(facts)), [], Some(WireReply(UserRejected, [])))
                 else
                   Turn(Idle, [path], Some(TransactionScreen(facts)), [call],
                        Some(match input.sign(call)
                             case Some(signature) => WireReply(Success, signature)
                             case None => WireReply(InternalFailure, [])))
  {
    hide DispatchStep, FormatReviewFacts, ReviewOf, Verdict, ReachesDerivation;
    VerdictIsReview(p, input.derive(path), frame, ReviewOf(p, frame).value);
  }

  // ----- The converse: an acceptable frame that is sent and approved is signed -----

  /** The inputs send a frame in the given chunks, and every reply but the last goes out. */
  predicate Sends(inputs: seq<LoopInput>, path: DerivationPath, chunks: seq<seq<byte>>) {
    |inputs| == |chunks|
    && (forall i :: 0 <= i < |chunks| ==> inputs[i].command == Some(ChunkCommand(path, chunks, i)))
    && (forall i :: 0 <= i < |chunks| - 1 ==> inputs[i].sendOk)
  }

  lemma {:induction false} SendingCollects(p: ClearSigningPolicy, before: seq<LoopInput>,
                                           inputs: seq<LoopInput>, path: DerivationPath,
                                           chunks: seq<seq<byte>>, n: nat)
    requires ViewAfter(p, before) == Idle && IsSplit(chunks) && Sends(inputs, path, chunks)
    requires n < |chunks|
    ensures ViewAfter(p, before + inputs[..n])
            == if n == 0 then Idle else Collecting(path, |Joined(chunks)|, Joined(chunks[..n]))
  {
    hide TurnOf, IsSplit, Joined, ChunkCommand;
    if n == 0 {
      assert before + inputs[..0] == before;
    } else {
      var all, input := before + inputs[..n], inputs[n - 1];
      assert input.command == Some(ChunkCommand(path, chunks, n - 1)) && input.sendOk;
      SendingCollects(p, before, inputs, path, chunks, n - 1);
      hide Sends;
      assert all[..|all| - 1] == before + inputs[..n - 1] && all[|all| - 1] == input;
      NextChunk(p, input.derive, path, chunks, n - 1);
      AcceptedTurn(p, ViewAfter(p, all[..|all| - 1]), input);
    }
  }

  lemma AcceptedTurn(p: ClearSigningPolicy, view: SessionView, input: LoopInput)
    requires input.command.Some? && input.sendOk
    requires DispatchStep(p, input.derive, view, input.command.value).outcome == ACCEPTED
    ensures TurnOf(p, view, input).view == DispatchStep(p, input.derive, view, input.command.value).view
  {
    hide DispatchStep;
  }

  /** From an idle session, however the frame is cut: every turn before the last replies success,
      without data, and shows, derives and signs nothing. */
  lemma {:induction false} SentChunksAreAccepted(p: ClearSigningPolicy, before: seq<LoopInput>,
                                                 inputs: seq<LoopInput>, path: DerivationPath,
                                                 chunks: seq<seq<byte>>, i: nat)
    requires ViewAfter(p, before) == Idle && IsSplit(chunks) && Sends(inputs, path, chunks)
    requires i < |chunks| - 1
    ensures TurnAt(p, before + inputs, |before| + i)
            == Turn(Collecting(path, |Joined(chunks)|, Joined(chunks[..i + 1])), [], None, [],
                    Some(WireReply(Success, [])))
  {
    hide TurnOf, TurnAt, DispatchStep, IsSplit, ChunkCommand, ViewAfter, Joined;
    assert inputs[i].command == Some(ChunkCommand(path, chunks, i)) && inputs[i].sendOk;
    SendingCollects(p, before, inputs, path, chunks, i);
    NextChunk(p, inputs[i].derive, path, chunks, i);
    PlainTurn(p, ViewAfter(p, before + inputs[..i]), inputs[i]);
    TurnAfter(p, before, inputs, i);
  }

  /** If it is a frame that the policy reviews for the derived key, it can be displayed, and the user
      approves, then the last turn shows its facts, signs exactly that frame with that path, and
      replies with the signature. */
  lemma {:induction false} ApprovedFrameIsSigned(p: ClearSigningPolicy, before: seq<LoopInput>,
                                                 inputs: seq<LoopInput>, path: DerivationPath,
                                                 chunks: seq<seq<byte>>)
    requires ViewAfter(p, before) == Idle && IsSplit(chunks) && Sends(inputs, path, chunks)
    requires var last, frame := inputs[|inputs| - 1], Joined(chunks);
             && FactsOf(p, frame).Some? && last.approve
             && last.derive(path) == Some(ReviewOf(p, frame).value.sender)
    ensures var call := SignCall(path, Joined(chunks));
            TurnAt(p, before + inputs, |before| + |inputs| - 1)
            == Turn(Idle, [path], Some(TransactionScreen(FactsOf(p, Joined(chunks)).value)), [call],
                    Some(match inputs[|inputs| - 1].sign(call)
                         case Some(signature) => WireReply(Success, signature)
                         case None => WireReply(InternalFailure, [])))
  {
    hide TurnAt, IsSplit, ReviewOf, ViewAfter, Joined, Sends, FormatReviewFacts;
    SendsEach(inputs, path, chunks);
    LastChunkTurn(p, before, inputs, path, chunks);
  }

  /** And if the user rejects it, the same facts were shown, nothing is signed, and the reply says so. */
  lemma {:induction false} RejectedFrameIsNotSigned(p: ClearSigningPolicy, before: seq<LoopInput>,
                                                    inputs: seq<LoopInput>, path: DerivationPath,
                                                    chunks: seq<seq<byte>>)
    requires ViewAfter(p, before) == Idle && IsSplit(chunks) && Sends(inputs, path, chunks)
    requires var last, frame := inputs[|inputs| - 1], Joined(chunks);
             && FactsOf(p, frame).Some? && !last.approve
             && last.derive(path) == Some(ReviewOf(p, frame).value.sender)
    ensures TurnAt(p, before + inputs, |before| + |inputs| - 1)
            == Turn(Idle, [path], Some(TransactionScreen(FactsOf(p, Joined(chunks)).value)), [],
                    Some(WireReply(UserRejected, [])))
  {
    hide TurnAt, IsSplit, ReviewOf, ViewAfter, Joined, Sends, FormatReviewFacts;
    SendsEach(inputs, path, chunks);
    LastChunkTurn(p, before, inputs, path, chunks);
  }

  lemma {:induction false} LastChunkTurn(p: ClearSigningPolicy, before: seq<LoopInput>, inputs: seq<LoopInput>,
                                         path: DerivationPath, chunks: seq<seq<byte>>)
    requires ViewAfter(p, before) == Idle && IsSplit(chunks) && Sends(inputs, path, chunks)
    requires var last, frame := inputs[|inputs| - 1], Joined(chunks);
             FactsOf(p, frame).Some? && last.derive(path) == Some(ReviewOf(p, frame).value.sender)
    ensures var last, call := inputs[|inputs| - 1], SignCall(path, Joined(chunks));
            TurnAt(p, before + inputs, |before| + |inputs| - 1)
            == Turn(Idle, [path], Some(TransactionScreen(FactsOf(p, Joined(chunks)).value)),
                    if last.approve then [call] else [],
                    Some(if !last.approve then WireReply(UserRejected, [])
                         else match last.sign(call)
                              case Some(signature) => WireReply(Success, signature)
                              case None => WireReply(InternalFailure, [])))
  {
    hide TurnOf, TurnAt, DispatchStep, IsSplit, ChunkCommand, ReviewOf, Judge, ViewAfter, Joined, Sends,
         FormatReviewFacts;
    SendsEach(inputs, path, chunks);
    var k := |chunks| - 1;
    SendingCollects(p, before, inputs, path, chunks, k);
    NextChunk(p, inputs[k].derive, path, chunks, k);
    JudgedTurn(p, ViewAfter(p, before + inputs[..k]), inputs[k], path, Joined(chunks));
    TurnAfter(p, before, inputs, k);
  }

  lemma SendsEach(inputs: seq<LoopInput>, path: DerivationPath, chunks: seq<seq<byte>>)
    requires IsSplit(chunks) && Sends(inputs, path, chunks)
    ensures |inputs| == |chunks| >= 2
    ensures inputs[|chunks| - 1].command == Some(ChunkCommand(path, chunks, |chunks| - 1))
  {
    hide Joined, ChunkCommand;
  }

  lemma {:induction false} TurnAfter(p: ClearSigningPolicy, before: seq<LoopInput>,
                                     inputs: seq<LoopInput>, k: nat)
    requires k < |inputs|
    ensures TurnAt(p, before + inputs, |before| + k)
            == TurnOf(p, ViewAfter(p, before + inputs[..k]), inputs[k])
  {
    hide TurnOf, ViewAfter;
    assert (before + inputs)[..|before| + k] == before + inputs[..k];
  }
}
