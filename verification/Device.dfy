// The device's event loop: dispatch a command, ask the user, then sign, reject or reset. A run
// is any finite sequence of turns; commands, deriver, user, signer and transport are arbitrary.
module Device {
  import opened Wrappers
  import opened Bytes
  import opened Path
  import opened Policy
  import opened FactText
  import opened Review
  import opened ReviewUi
  import opened SessionSteps
  import opened Apdu

  /** Everything outside the device during one turn: the command (none if its header does not
      decode), what the deriver and the signer answer, whether the user approves, and whether the
      reply can be sent. */
  datatype LoopInput = LoopInput(
    command: Option<ApduCommand>, derive: KeyAnswer, approve: bool, sign: SignAnswer, sendOk: bool)

  datatype WireReply = WireReply(status: StatusWord, data: seq<byte>)

  /** What the user is shown for approval. */
  datatype Screen = AddressScreen(address: seq<byte>) | TransactionScreen(facts: seq<ReviewFact>)

  /** One turn: the session it leaves, the paths derived, the screen shown, the signer calls made,
      and the reply (none where the transport layer picks it). */
  datatype Turn = Turn(
    view: SessionView,
    derived: seq<DerivationPath>,
    shown: Option<Screen>,
    signed: seq<SignCall>,
    reply: Option<WireReply>)

  function TurnOf(p: ClearSigningPolicy, view: SessionView, input: LoopInput): Turn {
    match input.command
    case None => Turn(Idle, [], None, [], None)
    case Some(command) =>
      var step := DispatchStep(p, input.derive, view, command);
      match step.outcome
      case Reply(status, response) => RepliedTurn(step, input, status, response)
      case ReviewPublicKey(_, key) => AddressTurn(step, input, key)
      case ReviewTransaction(review) => ReviewedTurn(step, input, review)
  }

  function RepliedTurn(step: Step, input: LoopInput, status: StatusWord, response: seq<byte>): Turn {
    Turn(if input.sendOk then step.view else Idle, step.derived, None, [],
         Some(WireReply(status, if status == Success then response else [])))
  }

  function AddressTurn(step: Step, input: LoopInput, key: Bytes32): Turn {
    var screen := Some(AddressScreen(HexText(key)));
    if input.approve then
      Turn(if input.sendOk then step.view else Idle, step.derived, screen, [], Some(WireReply(Success, key)))
    else Turn(Idle, step.derived, screen, [], Some(WireReply(UserRejected, [])))
  }

  function ReviewedTurn(step: Step, input: LoopInput, review: ClearSigningReview): Turn {
    match FormatReviewFacts(review)
    case Err(_) => Turn(Idle, step.derived, None, [], Some(WireReply(InternalFailure, [])))
    case Ok(facts) =>
      if input.approve then SignedTurn(step, facts, input.sign)
      else Turn(Idle, step.derived, Some(TransactionScreen(facts)), [], Some(WireReply(UserRejected, [])))
  }

  function SignedTurn(step: Step, facts: seq<ReviewFact>, sign: SignAnswer): Turn {
    match step.view
    case AwaitingApproval(path, frame, _) =>
      var call := SignCall(path, frame);
      Turn(Idle, step.derived, Some(TransactionScreen(facts)), [call],
           Some(match sign(call)
                case Some(signature) => WireReply(Success, signature)
                case None => WireReply(InternalFailure, [])))
    case _ => Turn(Idle, step.derived, Some(TransactionScreen(facts)), [], Some(WireReply(InvalidState, [])))
  }

  /** The session after a run from power-on. */
  function ViewAfter(p: ClearSigningPolicy, inputs: seq<LoopInput>): SessionView {
    if inputs == [] then Idle
    else TurnOf(p, ViewAfter(p, inputs[..|inputs| - 1]), inputs[|inputs| - 1]).view
  }

  /** Turn `i` of a run. */
  function TurnAt(p: ClearSigningPolicy, inputs: seq<LoopInput>, i: nat): Turn
    requires i < |inputs|
  {
    TurnOf(p, ViewAfter(p, inputs[..i]), inputs[i])
  }

  /** All signer calls of a run, in order. */
  function SignedBy(p: ClearSigningPolicy, inputs: seq<LoopInput>): seq<SignCall> {
    if inputs == [] then []
    else SignedBy(p, inputs[..|inputs| - 1]) + TurnAt(p, inputs, |inputs| - 1).signed
  }

  /** All paths derived in a run, in order. */
  function DerivedBy(p: ClearSigningPolicy, inputs: seq<LoopInput>): seq<DerivationPath> {
    if inputs == [] then []
    else DerivedBy(p, inputs[..|inputs| - 1]) + TurnAt(p, inputs, |inputs| - 1).derived
  }

  // ----- The loop itself -----

  /** The buffers behind a screen. */
  datatype ScreenBuffers = AddressBuffer(address: BoundedFactStr) | FactBuffers(facts: seq<ShownFact>)

  predicate Renders(buffers: Option<ScreenBuffers>, screen: Option<Screen>) {
    match screen
    case None => buffers == None
    case Some(AddressScreen(address)) =>
      buffers.Some? && buffers.value.AddressBuffer?
      && buffers.value.address.Valid() && buffers.value.address.AsStr() == address
    case Some(TransactionScreen(facts)) =>
      buffers.Some? && buffers.value.FactBuffers? && AllShow(buffers.value.facts, facts)
  }

  method RunTurn(session: SigningSession, deriver: PublicKeyDeriver, signer: FrameSigner,
                 policy: ClearSigningPolicy, input: LoopInput)
    returns (shown: Option<ScreenBuffers>, reply: Option<WireReply>)
    requires session.Valid()
    modifies session, session.buffer, deriver, signer
    ensures session.Valid()
    ensures var turn := TurnOf(policy, old(session.View()), input);
            && session.View() == turn.view
            && deriver.calls == old(deriver.calls) + turn.derived
            && signer.calls == old(signer.calls) + turn.signed
            && Renders(shown, turn.shown) && reply == turn.reply
  {
    hide DispatchStep, PassedLast, RepliedTurn, AddressTurn, ReviewedTurn, AllShow;
    deriver.answers := input.derive;
    signer.answers := input.sign;
    if input.command.None? {
      session.Reset();
      return None, None;
    }
    ghost var step := DispatchStep(policy, input.derive, session.View(), input.command.value);
    var outcome := Dispatch(session, input.command.value, deriver, policy);
    match outcome {
      case Reply(status, response) =>
        shown, reply := ReplyTurn(session, input, status, response, step);
      case ReviewPublicKey(_, key) =>
        shown, reply := PublicKeyTurn(session, input, key, step);
      case ReviewTransaction(review) =>
        shown, reply := ReviewTurn(session, signer, input, review, step);
    }
  }

  /** A plain reply goes out as it is. */
  method ReplyTurn(session: SigningSession, input: LoopInput, status: StatusWord, response: seq<byte>,
                   ghost step: Step)
    returns (shown: Option<ScreenBuffers>, reply: Option<WireReply>)
    requires session.Valid() && session.View() == step.view
    modifies session, session.buffer
    ensures session.Valid()
    ensures var turn := RepliedTurn(step, input, status, response);
            && turn.derived == step.derived && turn.signed == []
            && session.View() == turn.view && Renders(shown, turn.shown) && reply == turn.reply
  {
    hide PassedLast;
    if !input.sendOk { session.Reset(); }
    return None, Some(WireReply(status, if status == Success then response else []));
  }

  /** The turn after a key was derived to be verified: show its text, then return it or not. */
  method PublicKeyTurn(session: SigningSession, input: LoopInput, key: Bytes32, ghost step: Step)
    returns (shown: Option<ScreenBuffers>, reply: Option<WireReply>)
    requires session.Valid() && session.View() == step.view
    modifies session, session.buffer
    ensures session.Valid()
    ensures var turn := AddressTurn(step, input, key);
            && turn.derived == step.derived && turn.signed == []
            && session.View() == turn.view && Renders(shown, turn.shown) && reply == turn.reply
  {
    hide PassedLast, HexText;
    var address := TryFromHex(key);
    shown := Some(AddressBuffer(address.value));
    if !input.approve {
      session.Reset();
      return shown, Some(WireReply(UserRejected, []));
    }
    if !input.sendOk { session.Reset(); }
    return shown, Some(WireReply(Success, key));
  }

  /** The turn after LAST was accepted: show the facts, then sign or reject. */
  method ReviewTurn(session: SigningSession, signer: FrameSigner, input: LoopInput,
                    review: ClearSigningReview, ghost step: Step)
    returns (shown: Option<ScreenBuffers>, reply: Option<WireReply>)
    requires session.Valid() && session.View() == step.view && signer.answers == input.sign
    modifies session, session.buffer, signer`calls
    ensures session.Valid()
    ensures var turn := ReviewedTurn(step, input, review);
            && turn.derived == step.derived
            && session.View() == turn.view
            && signer.calls == old(signer.calls) + turn.signed
            && Renders(shown, turn.shown) && reply == turn.reply
  {
    hide FormatReviewFacts, PassedLast, AllShow;
    var facts := ShowReview(review);
    if facts.Err? {
      session.RejectReview();
      return None, Some(WireReply(InternalFailure, []));
    }
    shown := Some(FactBuffers(facts.value));
    if !input.approve {
      session.RejectReview();
      return shown, Some(WireReply(UserRejected, []));
    }
    var signature := session.ApproveAndSign(signer);
    if signature.Err? {
      return shown, Some(WireReply(signature.error, []));
    }
    if !input.sendOk { session.Reset(); }
    return shown, Some(WireReply(Success, signature.value));
  }

  /** A run of the loop from power-on: turn by turn it shows and replies, and all in all it derives
      and signs, exactly as specified. */
  method NormalMain(policy: ClearSigningPolicy, inputs: seq<LoopInput>, deriver: PublicKeyDeriver,
                    signer: FrameSigner)
    returns (session: SigningSession, screens: seq<Option<ScreenBuffers>>, replies: seq<Option<WireReply>>)
    modifies deriver, signer
    ensures session.Valid() && session.View() == ViewAfter(policy, inputs)
    ensures signer.calls == old(signer.calls) + SignedBy(policy, inputs)
    ensures deriver.calls == old(deriver.calls) + DerivedBy(policy, inputs)
    ensures |screens| == |replies| == |inputs|
    ensures forall i :: 0 <= i < |inputs| ==>
              Renders(screens[i], TurnAt(policy, inputs, i).shown)
              && replies[i] == TurnAt(policy, inputs, i).reply
  {
    hide TurnOf, ViewAfter, SignedBy, DerivedBy, Renders;
    RunStarts(policy);
    session := new SigningSession();
    screens, replies := [], [];
    for i := 0 to |inputs|
      invariant fresh(session) && fresh(session.buffer) && session.Valid()
      invariant session.View() == ViewAfter(policy, inputs[..i])
      invariant signer.calls == old(signer.calls) + SignedBy(policy, inputs[..i])
      invariant deriver.calls == old(deriver.calls) + DerivedBy(policy, inputs[..i])
      invariant |screens| == |replies| == i
      invariant forall k :: 0 <= k < i ==>
                  Renders(screens[k], TurnAt(policy, inputs, k).shown)
                  && replies[k] == TurnAt(policy, inputs, k).reply
    {
      RunGrows(policy, inputs, i);
      var shown, reply := RunTurn(session, deriver, signer, policy, inputs[i]);
      screens, replies := screens + [shown], replies + [reply];
    }
    assert inputs[..|inputs|] == inputs;
  }

  lemma {:induction false} RunStarts(p: ClearSigningPolicy)
    ensures ViewAfter(p, []) == Idle && SignedBy(p, []) == [] && DerivedBy(p, []) == []
  {
  }

  lemma {:induction false} RunGrows(p: ClearSigningPolicy, inputs: seq<LoopInput>, i: nat)
    requires i < |inputs|
    ensures var turn := TurnAt(p, inputs, i);
            && ViewAfter(p, inputs[..i + 1]) == turn.view
            && SignedBy(p, inputs[..i + 1]) == SignedBy(p, inputs[..i]) + turn.signed
            && DerivedBy(p, inputs[..i + 1]) == DerivedBy(p, inputs[..i]) + turn.derived
  {
    hide TurnOf;
    assert inputs[..i + 1][..i] == inputs[..i];
  }

  // ----- The signer's log, turn by turn -----

  /** The turns of a run that called the signer, in order. */
  function SigningTurns(p: ClearSigningPolicy, inputs: seq<LoopInput>): seq<nat> {
    if inputs == [] then []
    else SigningTurns(p, inputs[..|inputs| - 1])
         + if TurnAt(p, inputs, |inputs| - 1).signed != [] then [|inputs| - 1] else []
  }

  lemma TurnSignsAtMostOnce(p: ClearSigningPolicy, view: SessionView, input: LoopInput)
    ensures |TurnOf(p, view, input).signed| <= 1
  {
    hide DispatchStep, FormatReviewFacts, HexText;
  }

  /** Each entry of the signer's log is the one call of its own turn, in the order of the turns, and
      every turn that signs has its entry. */
  lemma {:induction false} LogIsPerTurn(p: ClearSigningPolicy, inputs: seq<LoopInput>)
    ensures var log, turns := SignedBy(p, inputs), SigningTurns(p, inputs);
            && |log| == |turns|
            && (forall k :: 0 <= k < |log| ==>
                  turns[k] < |inputs| && TurnAt(p, inputs, turns[k]).signed == [log[k]])
            && (forall j, k :: 0 <= j < k < |turns| ==> turns[j] < turns[k])
            && (forall i :: 0 <= i < |inputs| && TurnAt(p, inputs, i).signed != [] ==> i in turns)
    decreases |inputs|
  {
    hide TurnOf, ViewAfter;
    if inputs != [] {
      var n := |inputs| - 1;
      var before := inputs[..n];
      LogIsPerTurn(p, before);
      TurnSignsAtMostOnce(p, ViewAfter(p, before), inputs[n]);
      forall i | 0 <= i < n
        ensures TurnAt(p, before, i) == TurnAt(p, inputs, i)
      {
        assert before[..i] == inputs[..i];
      }
    }
  }
}
