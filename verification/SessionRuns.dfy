// Safety of the signing session as an object of its own: in any interleaving of its public
// operations, by any client, with a policy and a deriver of its own for each command.
module SessionRuns {
  import opened Wrappers
  import opened Policy
  import opened Review
  import opened SessionSteps
  import opened Apdu
  import opened Gathering

  datatype SessionCall =
    | Dispatching(policy: ClearSigningPolicy, derive: KeyAnswer, command: ApduCommand)
    | Approving(sign: SignAnswer)
    | Rejecting
    | Resetting

  function AfterCall(view: SessionView, call: SessionCall): SessionView {
    match call
    case Dispatching(policy, derive, command) => DispatchStep(policy, derive, view, command).view
    case _ => Idle
  }

  function SignedByCall(view: SessionView, call: SessionCall): seq<SignCall> {
    if call.Approving? && view.AwaitingApproval? then [SignCall(view.path, view.frame)] else []
  }

  /** The session after a sequence of calls on a new one. */
  function ViewAfterCalls(calls: seq<SessionCall>): SessionView {
    if calls == [] then Idle else AfterCall(ViewAfterCalls(calls[..|calls| - 1]), calls[|calls| - 1])
  }

  /** The signer calls that call `i` makes. */
  function SignedAt(calls: seq<SessionCall>, i: nat): seq<SignCall>
    requires i < |calls|
  {
    SignedByCall(ViewAfterCalls(calls[..i]), calls[i])
  }

  /** The calls as a stream of commands, which every call other than a dispatch interrupts. */
  function CommandsOf(calls: seq<SessionCall>): (commands: seq<Option<ApduCommand>>)
    ensures |commands| == |calls|
    ensures forall i :: 0 <= i < |calls| ==>
              commands[i] == if calls[i].Dispatching? then Some(calls[i].command) else None
  {
    seq(|calls|, i requires 0 <= i < |calls| =>
      if calls[i].Dispatching? then Some(calls[i].command) else None)
  }

  /** Performs a call; the session and the signer do what the functions above say. */
  method Perform(session: SigningSession, call: SessionCall, deriver: PublicKeyDeriver, signer: FrameSigner)
    requires session.Valid()
    modifies session, session.buffer, deriver, signer
    ensures session.Valid() && session.View() == AfterCall(old(session.View()), call)
    ensures signer.calls == old(signer.calls) + SignedByCall(old(session.View()), call)
  {
    hide DispatchStep, PassedLast;
    match call {
      case Dispatching(policy, derive, command) =>
        deriver.answers := derive;
        var outcome := Dispatch(session, command, deriver, policy);
      case Approving(sign) =>
        signer.answers := sign;
        var signature := session.ApproveAndSign(signer);
      case Rejecting => session.RejectReview();
      case Resetting => session.Reset();
    }
  }

  lemma {:induction false} CallsKeep(calls: seq<SessionCall>)
    ensures ValidView(ViewAfterCalls(calls))
    ensures HoldsGathered(CommandsOf(calls), ViewAfterCalls(calls))
    decreases |calls|
  {
    hide DispatchStep, PassedLast, Gathered;
    if calls != [] {
      var before, call := calls[..|calls| - 1], calls[|calls| - 1];
      var view := ViewAfterCalls(before);
      CallsKeep(before);
      if call.Dispatching? {
        assert CommandsOf(calls) == CommandsOf(before) + [Some(call.command)];
        DispatchKeeps(call.policy, call.derive, view, call.command);
        DispatchGathers(call.policy, call.derive, CommandsOf(before), view, call.command);
      }
    }
  }

  /** Whenever approval is pending, the last call was the LAST of one uninterrupted sequence that
      delivered the path and exactly the pending frame; and that call's own policy reviews the frame,
      for the key that its own deriver answers for that path. */
  lemma {:induction false} PendingFrameIsJustified(calls: seq<SessionCall>) returns (start: nat)
    requires ViewAfterCalls(calls).AwaitingApproval?
    ensures calls != [] && calls[|calls| - 1].Dispatching?
    ensures var view, last := ViewAfterCalls(calls), calls[|calls| - 1];
            && Delivered(CommandsOf(calls), start, |calls| - 1, view.path, view.frame)
            && ReviewOf(last.policy, view.frame).Some?
            && last.derive(view.path) == Some(ReviewOf(last.policy, view.frame).value.sender)
            && view.judged == Judgement(last.policy, last.derive(view.path).value)
            && PassedLast(view.judged, view.frame)
  {
    hide DispatchStep, PassedLast, Delivered, ReviewOf;
    var before, last := calls[..|calls| - 1], calls[|calls| - 1];
    CallsKeep(before);
    assert CommandsOf(calls) == CommandsOf(before) + [Some(last.command)];
    start := PendingIsDelivered(last.policy, last.derive, CommandsOf(before), ViewAfterCalls(before), last.command);
  }

  /** Hence every signer call, in any interleaving: the call just before was such a LAST, and the
      signer gets its sequence's path and exactly its bytes. No frame is signed twice on one LAST. */
  lemma {:induction false} EverySignerCallIsJustified(calls: seq<SessionCall>, i: nat) returns (start: nat)
    requires i < |calls| && SignedAt(calls, i) != []
    ensures |SignedAt(calls, i)| == 1 && i > 0 && calls[i - 1].Dispatching?
    ensures var call, last := SignedAt(calls, i)[0], calls[i - 1];
            && Delivered(CommandsOf(calls), start, i - 1, call.path, call.frame)
            && ReviewOf(last.policy, call.frame).Some?
            && last.derive(call.path) == Some(ReviewOf(last.policy, call.frame).value.sender)
  {
    hide ViewAfterCalls, PassedLast, Delivered, ReviewOf;
    var before := calls[..i];
    start := PendingFrameIsJustified(before);
    assert CommandsOf(before) == CommandsOf(calls)[..i];
    var call := SignedAt(calls, i)[0];
    DeliveredInPrefix(CommandsOf(calls), i, start, i - 1, call.path, call.frame);
  }
}
