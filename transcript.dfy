/** What the two streaming scripts share: the transcription results the
    streaming service hands to the event handler, the observable actions
    the scripts take, the display of a partial result, and write_chunks,
    which forwards captured microphone blocks to the service. */
module Transcript {
  import opened Seqs

  /** One candidate transcription of a result. */
  datatype Alternative = Alternative(transcript: string)

  /** One transcription result: partial (still being revised) or final
      (the end of a segment), with its alternatives in the service's order. */
  datatype TranscriptResult = TranscriptResult(isPartial: bool, alternatives: seq<Alternative>)

  /** Audio as the speech service returns it. */
  type Audio = seq<bv8>

  /** The observable effects, in the order the scripts perform them:
      clearing the console, printing, the end-of-segment mark, a call to the
      translation service, a call to the speech service, playing audio,
      sending an audio chunk to the transcription stream and ending it. */
  datatype Action =
    | ClearScreen
    | Print(text: string)
    | EndMark
    | Translate(text: string, source: string, target: string)
    | Synthesize(text: string)
    | Play(sound: Audio)
    | SendAudio(chunk: seq<bv8>)
    | EndStream

  /** The actions that only show something on the console. */
  predicate IsDisplay(a: Action) {
    a.ClearScreen? || a.Print? || a.EndMark?
  }

  predicate IsFinal(r: TranscriptResult) {
    !r.isPartial
  }

  /** What a partial result shows: for each alternative, in order, the
      screen is cleared and its transcript printed. */
  function PartialActions(alts: seq<Alternative>): (acts: seq<Action>)
    ensures |acts| == 2 * |alts|
    ensures forall i :: 0 <= i < |alts| ==> acts[2 * i] == ClearScreen
    ensures forall i :: 0 <= i < |alts| ==> acts[2 * i + 1] == Print(alts[i].transcript)
    decreases |alts|
  {
    if alts == [] then []
    else PartialActions(alts[..|alts| - 1]) + [ClearScreen, Print(alts[|alts| - 1].transcript)]
  }

  /** A partial result only clears and prints, and what it prints is the
      transcript of one of its alternatives. */
  lemma {:induction false} PartialActionsDisplayOnly(alts: seq<Alternative>)
    ensures forall a :: a in PartialActions(alts) ==> a.ClearScreen? || a.Print?
    ensures forall a :: a in PartialActions(alts) && a.Print? ==> exists j :: 0 <= j < |alts| && a.text == alts[j].transcript
    decreases |alts|
  {
    if alts != [] {
      var init := alts[..|alts| - 1];
      PartialActionsDisplayOnly(init);
      forall a | a in PartialActions(alts) && a.Print?
        ensures exists j :: 0 <= j < |alts| && a.text == alts[j].transcript
      {
        if a in PartialActions(init) {
          var j :| 0 <= j < |init| && a.text == init[j].transcript;
          assert alts[j] == init[j];
        } else {
          assert a.text == alts[|alts| - 1].transcript;
        }
      }
    }
  }

  /** The inner `for alt in result.alternatives` loop of both handlers. */
  method ShowPartial(trace: seq<Action>, alts: seq<Alternative>) returns (trace': seq<Action>)
    ensures trace' == trace + PartialActions(alts)
  {
    trace' := trace;
    for j := 0 to |alts|
      invariant trace' == trace + PartialActions(alts[..j])
    {
      assert alts[..j + 1][..j] == alts[..j];
      trace' := trace' + [ClearScreen, Print(alts[j].transcript)];
    }
    assert alts[..|alts|] == alts;
  }

  /** Total number of alternatives over the partial results. */
  function PartialAlternatives(results: seq<TranscriptResult>): nat
    decreases |results|
  {
    if results == [] then 0
    else
      var r := results[|results| - 1];
      PartialAlternatives(results[..|results| - 1]) + (if r.isPartial then |r.alternatives| else 0)
  }

  // ---------------------------------------------------------------------
  // The `for result in results` loop of a handler

  /** The actions an event produced, and whether the handler raised on one
      of its results (the results after that one are not handled). */
  datatype Handling = Handling(actions: seq<Action>, failed: bool)

  /** Handling the results in order with a per-result rule: each result
      adds the actions `step` gives it, and a result on which the handler
      `raises` ends the handling after its actions. */
  function HandleAll(results: seq<TranscriptResult>, step: TranscriptResult -> seq<Action>,
                     raises: TranscriptResult -> bool): Handling
    decreases |results|
  {
    if results == [] then Handling([], false)
    else
      var h := HandleAll(results[..|results| - 1], step, raises);
      var r := results[|results| - 1];
      if h.failed then h else Handling(h.actions + step(r), raises(r))
  }

  /** One more result is handled after the others, unless they raised. */
  lemma HandleAllSnoc(results: seq<TranscriptResult>, r: TranscriptResult, step: TranscriptResult -> seq<Action>,
                      raises: TranscriptResult -> bool)
    ensures HandleAll(results + [r], step, raises)
         == if HandleAll(results, step, raises).failed then HandleAll(results, step, raises)
            else Handling(HandleAll(results, step, raises).actions + step(r), raises(r))
  {
    assert (results + [r])[..|results|] == results;
  }

  /** Once the handler has raised, later results change nothing. */
  lemma {:induction false} HandleAllFailedStays(results: seq<TranscriptResult>, k: nat,
                                                step: TranscriptResult -> seq<Action>, raises: TranscriptResult -> bool)
    requires k <= |results|
    requires HandleAll(results[..k], step, raises).failed
    ensures HandleAll(results, step, raises) == HandleAll(results[..k], step, raises)
    decreases |results|
  {
    if k < |results| {
      assert results[..|results| - 1][..k] == results[..k];
      HandleAllFailedStays(results[..|results| - 1], k, step, raises);
    } else {
      assert results[..k] == results;
    }
  }

  /** The handler raises exactly when it reaches a result it raises on. */
  lemma {:induction false} HandleAllFailedIff(results: seq<TranscriptResult>, step: TranscriptResult -> seq<Action>,
                                              raises: TranscriptResult -> bool)
    ensures HandleAll(results, step, raises).failed <==> exists i :: 0 <= i < |results| && raises(results[i])
    decreases |results|
  {
    if results != [] {
      var init := results[..|results| - 1];
      HandleAllFailedIff(init, step, raises);
      if exists i :: 0 <= i < |init| && raises(init[i]) {
        var i :| 0 <= i < |init| && raises(init[i]);
        assert results[i] == init[i];
      }
      if exists i :: 0 <= i < |results| && raises(results[i]) {
        var i :| 0 <= i < |results| && raises(results[i]);
        if i < |init| {
          assert init[i] == results[i];
        }
      }
    }
  }

  /** Results handled after the handler raised change nothing. */
  lemma HandleAllConcatFailed(a: seq<TranscriptResult>, b: seq<TranscriptResult>,
                              step: TranscriptResult -> seq<Action>, raises: TranscriptResult -> bool)
    requires HandleAll(a, step, raises).failed
    ensures HandleAll(a + b, step, raises) == HandleAll(a, step, raises)
  {
    assert (a + b)[..|a|] == a;
    HandleAllFailedStays(a + b, |a|, step, raises);
  }

  /** Results are handled strictly in order: when the first part of a batch
      does not raise, handling the batch is handling the first part and
      then the second. */
  lemma {:induction false} HandleAllConcat(a: seq<TranscriptResult>, b: seq<TranscriptResult>,
                                           step: TranscriptResult -> seq<Action>, raises: TranscriptResult -> bool)
    requires !HandleAll(a, step, raises).failed
    ensures HandleAll(a + b, step, raises).actions == HandleAll(a, step, raises).actions + HandleAll(b, step, raises).actions
    ensures HandleAll(a + b, step, raises).failed == HandleAll(b, step, raises).failed
    decreases |b|
  {
    if b == [] {
      assert a + b == a;
    } else {
      var b' := b[..|b| - 1];
      var last := b[|b| - 1];
      assert a + b == (a + b') + [last];
      assert b == b' + [last];
      HandleAllConcat(a, b', step, raises);
      HandleAllSnoc(a + b', last, step, raises);
      HandleAllSnoc(b', last, step, raises);
    }
  }

  // ---------------------------------------------------------------------
  // write_chunks

  /** One block captured from the microphone: the audio and the callback
      status that comes with it. */
  datatype Block = Block(chunk: seq<bv8>, status: nat)

  /** One send per block, in capture order, carrying the audio only. */
  function Sends(blocks: seq<Block>): (acts: seq<Action>)
    ensures |acts| == |blocks|
    ensures forall i :: 0 <= i < |blocks| ==> acts[i] == SendAudio(blocks[i].chunk)
    decreases |blocks|
  {
    if blocks == [] then []
    else Sends(blocks[..|blocks| - 1]) + [SendAudio(blocks[|blocks| - 1].chunk)]
  }

  /** write_chunks over the blocks the microphone yields: one send per block,
      then the end of the stream when, and only when, the microphone stream ends. */
  method WriteChunks(blocks: seq<Block>, sourceEnds: bool) returns (trace: seq<Action>)
    ensures trace == Sends(blocks) + (if sourceEnds then [EndStream] else [])
  {
    trace := [];
    for i := 0 to |blocks|
      invariant trace == Sends(blocks[..i])
    {
      assert blocks[..i + 1][..i] == blocks[..i];
      trace := trace + [SendAudio(blocks[i].chunk)];
    }
    assert blocks[..|blocks|] == blocks;
    if sourceEnds {
      trace := trace + [EndStream];
    }
  }

  /** What has been sent after any number of blocks is a prefix of what is
      sent after more of them. */
  lemma SendsPrefix(blocks: seq<Block>, k: nat)
    requires k <= |blocks|
    ensures Sends(blocks[..k]) <= Sends(blocks)
  {
  }

  /** The stream is ended at most once, only when the microphone stream ends, and only
      after the last send; blocks whose status differs are sent alike. */
  lemma EndStreamLast(blocks: seq<Block>, sourceEnds: bool, i: nat)
    requires i < |Sends(blocks) + (if sourceEnds then [EndStream] else [])|
    ensures (Sends(blocks) + (if sourceEnds then [EndStream] else []))[i] == EndStream <==> sourceEnds && i == |blocks|
  {
  }

  /** The status is dropped: blocks with the same audio are forwarded the
      same way whatever their statuses. */
  lemma SendsIgnoreStatus(a: seq<Block>, b: seq<Block>)
    requires |a| == |b|
    requires forall i :: 0 <= i < |a| ==> a[i].chunk == b[i].chunk
    ensures Sends(a) == Sends(b)
  {
  }
}
