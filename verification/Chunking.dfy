// Sending a frame in chunks: how the host cuts it up makes no difference.
module Chunking {
  import opened Bytes
  import opened Path
  import opened Policy
  import opened SessionSteps

  /** The chunks put together again. */
  function Joined(chunks: seq<seq<byte>>): seq<byte> {
    if chunks == [] then [] else Joined(chunks[..|chunks| - 1]) + chunks[|chunks| - 1]
  }

  function FirstData(path: DerivationPath, total: nat, chunk: seq<byte>): seq<byte> {
    BeBytes(total, 4) + EncodePath(path) + chunk
  }

  /** A split that the protocol can carry: at least two chunks, each of 1 to 230 bytes. */
  predicate IsSplit(chunks: seq<seq<byte>>) {
    |chunks| >= 2
    && (forall i :: 0 <= i < |chunks| ==> 1 <= |chunks[i]| <= MAX_CHUNK_LEN)
    && |Joined(chunks)| <= MAX_FRAME_LEN
  }

  /** Command `i` of the sequence FIRST, CONTINUE, ..., CONTINUE, LAST. */
  function ChunkCommand(path: DerivationPath, chunks: seq<seq<byte>>, i: nat): ApduCommand
    requires i < |chunks|
  {
    if i == 0 then SignCommand(FIRST, FirstData(path, |Joined(chunks)|, chunks[0]))
    else if i < |chunks| - 1 then SignCommand(CONTINUE, chunks[i])
    else SignCommand(LAST, chunks[i])
  }

  /** The views, outcomes and derivations of a run of commands. */
  datatype Run = Run(view: SessionView, outcomes: seq<DispatchOutcome>, derived: seq<DerivationPath>)

  /** The first `n` commands of a split, dispatched from an idle session. */
  function RunSplit(p: ClearSigningPolicy, derive: KeyAnswer, path: DerivationPath,
                    chunks: seq<seq<byte>>, n: nat): (run: Run)
    requires n <= |chunks|
    ensures |run.outcomes| == n
  {
    if n == 0 then Run(Idle, [], [])
    else
      var before := RunSplit(p, derive, path, chunks, n - 1);
      var step := DispatchStep(p, derive, before.view, ChunkCommand(path, chunks, n - 1));
      Run(step.view, before.outcomes + [step.outcome], before.derived + step.derived)
  }

  // ----- One command at a time -----

  lemma FirstStepAccepts(path: DerivationPath, total: nat, chunk: seq<byte>)
    requires 1 <= |chunk| <= MAX_CHUNK_LEN && |chunk| < total <= MAX_FRAME_LEN
    ensures FirstStep(FirstData(path, total, chunk)) == Step(Collecting(path, total, chunk), ACCEPTED, [])
  {
    hide BeBytes, BeValue, EncodePath, DecodePath;
    var data := FirstData(path, total, chunk);
    assert data[0..4] == BeBytes(total, 4) && data[4..25] == EncodePath(path) && data[25..] == chunk;
    Pow256Values();
    BeValueOfBytes(total, 4);
    PathExactly(EncodePath(path), path);
  }

  lemma FirstAccepted(p: ClearSigningPolicy, derive: KeyAnswer, path: DerivationPath, total: nat,
                      chunk: seq<byte>)
    requires 1 <= |chunk| <= MAX_CHUNK_LEN && |chunk| < total <= MAX_FRAME_LEN
    ensures DispatchStep(p, derive, Idle, SignCommand(FIRST, FirstData(path, total, chunk)))
            == Step(Collecting(path, total, chunk), ACCEPTED, [])
  {
    hide FirstStep;
    FirstStepAccepts(path, total, chunk);
  }

  lemma {:induction false} PrefixIsShorter(chunks: seq<seq<byte>>, n: nat)
    requires n < |chunks|
    requires forall i :: 0 <= i < |chunks| ==> |chunks[i]| >= 1
    ensures |Joined(chunks[..n])| < |Joined(chunks[..n + 1])| <= |Joined(chunks)|
    decreases |chunks|
  {
    assert chunks[..n + 1][..n] == chunks[..n];
    if n + 1 < |chunks| {
      var init := chunks[..|chunks| - 1];
      PrefixIsShorter(init, n);
      assert init[..n] == chunks[..n] && init[..n + 1] == chunks[..n + 1];
    } else {
      assert chunks[..n + 1] == chunks;
    }
  }

  /** Dispatching the next chunk command of a split, whatever the deriver answers this time. */
  lemma {:induction false} NextChunk(p: ClearSigningPolicy, derive: KeyAnswer, path: DerivationPath,
                  chunks: seq<seq<byte>>, i: nat)
    requires IsSplit(chunks) && i < |chunks|
    ensures var view := if i == 0 then Idle else Collecting(path, |Joined(chunks)|, Joined(chunks[..i]));
            DispatchStep(p, derive, view, ChunkCommand(path, chunks, i))
            == if i < |chunks| - 1
               then Step(Collecting(path, |Joined(chunks)|, Joined(chunks[..i + 1])), ACCEPTED, [])
               else Judge(p, derive, path, Joined(chunks))
  {
    hide Judge, FirstStep, FirstData;
    PrefixIsShorter(chunks, i);
    assert chunks[..i + 1][..i] == chunks[..i];
    if i == 0 {
      PrefixIsShorter(chunks, 1);
      assert Joined(chunks[..1]) == chunks[0] by { assert chunks[..1][..0] == []; }
      FirstAccepted(p, derive, path, |Joined(chunks)|, chunks[0]);
    } else if i < |chunks| - 1 {
      PrefixIsShorter(chunks, i + 1);
    } else {
      assert chunks[..i + 1] == chunks;
    }
  }

  lemma {:induction false} SplitCollects(p: ClearSigningPolicy, derive: KeyAnswer, path: DerivationPath,
                                         chunks: seq<seq<byte>>, n: nat)
    requires IsSplit(chunks) && 1 <= n < |chunks|
    ensures RunSplit(p, derive, path, chunks, n)
            == Run(Collecting(path, |Joined(chunks)|, Joined(chunks[..n])), seq(n, _ => ACCEPTED), [])
  {
    hide DispatchStep, Joined;
    NextChunk(p, derive, path, chunks, n - 1);
    if n > 1 {
      SplitCollects(p, derive, path, chunks, n - 1);
    }
    assert seq(n, _ => ACCEPTED) == seq(n - 1, _ => ACCEPTED) + [ACCEPTED];
  }

  /** Chunking is invisible: for every split of a frame and every path, all commands but the last
      succeed, the last one returns the one-shot judgement of the whole frame and derives a key
      only if that judgement does, and the session then holds exactly the frame or nothing. */
  lemma {:induction false} ChunkingIsInvisible(p: ClearSigningPolicy, derive: KeyAnswer, path: DerivationPath,
                            chunks: seq<seq<byte>>)
    requires IsSplit(chunks)
    ensures var run := RunSplit(p, derive, path, chunks, |chunks|);
            var judged := Judge(p, derive, path, Joined(chunks));
            && run.view == judged.view
            && run.outcomes == seq(|chunks| - 1, _ => ACCEPTED) + [judged.outcome]
            && run.derived == judged.derived
  {
    hide DispatchStep, Judge, Joined;
    SplitCollects(p, derive, path, chunks, |chunks| - 1);
    NextChunk(p, derive, path, chunks, |chunks| - 1);
  }

  /** Two ways of cutting the same frame end alike. */
  lemma {:induction false} SplitsAgree(p: ClearSigningPolicy, derive: KeyAnswer, path: DerivationPath,
                    a: seq<seq<byte>>, b: seq<seq<byte>>)
    requires IsSplit(a) && IsSplit(b) && Joined(a) == Joined(b)
    ensures var x, y := RunSplit(p, derive, path, a, |a|), RunSplit(p, derive, path, b, |b|);
            x.view == y.view && x.outcomes[|a| - 1] == y.outcomes[|b| - 1] && x.derived == y.derived
  {
    hide RunSplit, Judge, Joined;
    ChunkingIsInvisible(p, derive, path, a);
    ChunkingIsInvisible(p, derive, path, b);
  }
}
