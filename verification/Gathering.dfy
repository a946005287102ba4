// One uninterrupted FIRST, CONTINUE, ..., LAST sequence within a stream of commands. An event of
// the stream that is not a decoded command is None, and interrupts.
module Gathering {
  import opened Wrappers
  import opened Bytes
  import opened Path
  import opened Policy
  import Review
  import opened SessionSteps

  /** A sign-transaction command of the given kind. */
  predicate IsChunk(command: Option<ApduCommand>, p1: byte) {
    command.Some? && command.value == SignCommand(p1, command.value.data)
  }

  /** The chunk data of commands `first` to `end - 1`, joined. */
  function ChunkData(commands: seq<Option<ApduCommand>>, first: nat, end: nat): seq<byte>
    requires first <= end <= |commands|
  {
    if first == end then []
    else ChunkData(commands, first, end - 1)
         + (if commands[end - 1].Some? then commands[end - 1].value.data else [])
  }

  /** Commands `start` to `end - 1` are one uninterrupted FIRST, CONTINUE, ..., CONTINUE, which
      named the path and the total length and carried exactly these bytes. */
  predicate Gathered(commands: seq<Option<ApduCommand>>, start: nat, end: nat, path: DerivationPath,
                     total: nat, bytes: seq<byte>)
  {
    && start < end <= |commands|
    && IsChunk(commands[start], FIRST)
    && (forall k :: start < k < end ==> IsChunk(commands[k], CONTINUE))
    && var data := commands[start].value.data;
       |data| >= FIRST_MIN_DATA_LEN
       && DecodePath(data[4..25]) == Ok(path)
       && BeValue(data[0..4]) == total
       && bytes == data[25..] + ChunkData(commands, start + 1, end)
  }

  /** Commands `start` to `last` are one uninterrupted FIRST, CONTINUE, ..., LAST, which named the
      path and the frame's length and carried exactly the frame. */
  predicate Delivered(commands: seq<Option<ApduCommand>>, start: nat, last: nat, path: DerivationPath,
                      frame: seq<byte>)
  {
    && start < last < |commands|
    && IsChunk(commands[last], LAST)
    && var data := commands[last].value.data;
       |data| <= |frame|
       && frame[|frame| - |data|..] == data
       && Gathered(commands, start, last, path, |frame|, frame[..|frame| - |data|])
  }

  /** What a collecting session holds was gathered by the end of the stream. */
  ghost predicate HoldsGathered(commands: seq<Option<ApduCommand>>, view: SessionView) {
    view.Collecting? ==>
      exists start :: Gathered(commands, start, |commands|, view.path, view.declared, view.received)
  }

  lemma {:induction false} ChunkDataOfPrefix(commands: seq<Option<ApduCommand>>, n: nat, first: nat, end: nat)
    requires first <= end <= n <= |commands|
    ensures ChunkData(commands[..n], first, end) == ChunkData(commands, first, end)
    decreases end
  {
    if first < end {
      ChunkDataOfPrefix(commands, n, first, end - 1);
    }
  }

  lemma GatheredInPrefix(commands: seq<Option<ApduCommand>>, n: nat, start: nat, path: DerivationPath,
                         total: nat, bytes: seq<byte>)
    requires n <= |commands|
    ensures Gathered(commands[..n], start, n, path, total, bytes)
            <==> Gathered(commands, start, n, path, total, bytes)
  {
    hide DecodePath, BeValue, ChunkData, IsChunk;
    if start < n {
      ChunkDataOfPrefix(commands, n, start + 1, n);
      var before := commands[..n];
      assert before[start] == commands[start];
      assert forall k :: start < k < n ==> before[k] == commands[k];
    }
  }

  lemma DeliveredInPrefix(commands: seq<Option<ApduCommand>>, n: nat, start: nat, last: nat,
                          path: DerivationPath, frame: seq<byte>)
    requires n <= |commands| && Delivered(commands[..n], start, last, path, frame)
    ensures Delivered(commands, start, last, path, frame)
  {
    hide Gathered;
    var before := commands[..n];
    assert before[last] == commands[last] && before[..last] == commands[..last];
    var bytes := frame[..|frame| - |commands[last].value.data|];
    GatheredInPrefix(before, last, start, path, |frame|, bytes);
    GatheredInPrefix(commands, last, start, path, |frame|, bytes);
  }

  lemma {:induction false} GatheredGrows(commands: seq<Option<ApduCommand>>, start: nat, n: nat,
                                         path: DerivationPath, total: nat, bytes: seq<byte>)
    requires n < |commands| && IsChunk(commands[n], CONTINUE)
    requires Gathered(commands, start, n, path, total, bytes)
    ensures Gathered(commands, start, n + 1, path, total, bytes + commands[n].value.data)
  {
    hide DecodePath, BeValue;
  }

  /** Every dispatched command keeps it: the collection, if there is one after the command, is what
      one uninterrupted sequence up to and including the command delivered. */
  lemma DispatchGathers(p: ClearSigningPolicy, derive: KeyAnswer, commands: seq<Option<ApduCommand>>,
                        view: SessionView, c: ApduCommand)
    requires HoldsGathered(commands, view)
    ensures HoldsGathered(commands + [Some(c)], DispatchStep(p, derive, view, c).view)
  {
    hide DispatchStep, DecodePath, BeValue, Gathered;
    var after := DispatchStep(p, derive, view, c).view;
    if after.Collecting? {
      CollectingStep(p, derive, view, c);
      var n, all := |commands|, commands + [Some(c)];
      if view.Collecting? {
        var start :| Gathered(commands, start, n, view.path, view.declared, view.received);
        assert all[..n] == commands;
        GatheredInPrefix(all, n, start, view.path, view.declared, view.received);
        GatheredGrows(all, start, n, view.path, view.declared, view.received);
      } else {
        FirstGathers(all, n, after);
      }
    }
  }

  lemma {:induction false} FirstGathers(commands: seq<Option<ApduCommand>>, n: nat, after: SessionView)
    requires |commands| == n + 1 && IsChunk(commands[n], FIRST) && after.Collecting?
    requires var data := commands[n].value.data;
             && |data| >= FIRST_MIN_DATA_LEN && DecodePath(data[4..25]) == Ok(after.path)
             && BeValue(data[0..4]) == after.declared && after.received == data[25..]
    ensures Gathered(commands, n, n + 1, after.path, after.declared, after.received)
  {
    hide DecodePath, BeValue;
    assert commands[n].value.data[25..] + ChunkData(commands, n + 1, n + 1) == commands[n].value.data[25..];
  }

  /** A frame put up for approval was delivered, whole, by one uninterrupted sequence that ends in
      the command that put it up; it is reviewed under that command's policy, for the key that its
      deriver answers for the path of the sequence. */
  lemma PendingIsDelivered(p: ClearSigningPolicy, derive: KeyAnswer, commands: seq<Option<ApduCommand>>,
                           view: SessionView, c: ApduCommand) returns (start: nat)
    requires HoldsGathered(commands, view)
    requires DispatchStep(p, derive, view, c).view.AwaitingApproval?
    ensures var s := DispatchStep(p, derive, view, c);
            && Delivered(commands + [Some(c)], start, |commands|, s.view.path, s.view.frame)
            && s.view.judged.policy == p && derive(s.view.path) == Some(s.view.judged.publicKey)
            && PassedLast(s.view.judged, s.view.frame)
            && s.outcome.ReviewTransaction?
            && Review.ReviewOf(p, s.view.frame) == Some(s.outcome.review)
            && derive(s.view.path) == Some(s.outcome.review.sender)
            && s.derived == [s.view.path]
  {
    hide DispatchStep, Judge, DecodePath, BeValue, Gathered, PassedLast, Review.ReviewOf;
    PendingStep(p, derive, view, c);
    var frame := view.received + c.data;
    JudgeKeeps(p, derive, view.path, frame);
    var n, all := |commands|, commands + [Some(c)];
    start :| Gathered(commands, start, n, view.path, view.declared, view.received);
    assert all[..n] == commands;
    GatheredInPrefix(all, n, start, view.path, view.declared, view.received);
    assert start < n by { GatheredStarts(commands, start, n, view); }
    assert frame[..|frame| - |c.data|] == view.received;
  }

  lemma GatheredStarts(commands: seq<Option<ApduCommand>>, start: nat, end: nat, view: SessionView)
    requires view.Collecting? && Gathered(commands, start, end, view.path, view.declared, view.received)
    ensures start < end
  {
  }
}
