/** The event handler of the speak-translate-speak script: partial results
    are shown on the console; a final result is marked, its first
    alternative translated, the translation synthesised and played. The
    translation and speech services are parameters of the model. */
module TranslateSpeechApp {
  import opened Seqs
  import opened Transcript

  const SourceLangCode: string := "zh-CN"
  const TargetLangCode: string := "en-US"

  /** What a final result whose first transcript is `text` does: the mark,
      the translation from SOURCE_LANGCODE to TARGET_LANGCODE, the speech
      request for the translated text, and playing the audio it returns. */
  function FinalActions(text: string, translate: (string, string, string) -> string, synthesize: string -> Audio)
    : (acts: seq<Action>)
    ensures |acts| == 4 && acts[0] == EndMark
    ensures acts[1] == Translate(text, SourceLangCode, TargetLangCode)
    ensures acts[2] == Synthesize(translate(text, SourceLangCode, TargetLangCode))
    ensures acts[3] == Play(synthesize(translate(text, SourceLangCode, TargetLangCode)))
  {
    var translated := translate(text, SourceLangCode, TargetLangCode);
    [EndMark, Translate(text, SourceLangCode, TargetLangCode), Synthesize(translated), Play(synthesize(translated))]
  }

  predicate FailsAt(r: TranscriptResult) {
    !r.isPartial && r.alternatives == []
  }

  /** What one result does before the next is looked at. A final result
      without alternatives gets as far as its mark. */
  function ResultActions(r: TranscriptResult, translate: (string, string, string) -> string,
                         synthesize: string -> Audio): seq<Action>
  {
    if r.isPartial then PartialActions(r.alternatives)
    else if r.alternatives == [] then [EndMark]
    else FinalActions(r.alternatives[0].transcript, translate, synthesize)
  }

  /** Of what a final result does, only the mark is shown on the console. */
  lemma FinalDisplaysMark(text: string, translate: (string, string, string) -> string, synthesize: string -> Audio)
    ensures Filter(FinalActions(text, translate, synthesize), IsDisplay) == [EndMark]
  {
    var f := FinalActions(text, translate, synthesize);
    var rest := [f[1], f[2], f[3]];
    assert f == [f[0]] + rest;
    FilterConcat([f[0]], rest, IsDisplay);
    FilterNoneKept(rest, IsDisplay);
  }

  function Step(translate: (string, string, string) -> string, synthesize: string -> Audio)
    : TranscriptResult -> seq<Action>
  {
    r => ResultActions(r, translate, synthesize)
  }

  /** The handling of the results in order; `alternatives[0]` raises on a
      final result without alternatives, and the results after it are not
      handled. */
  function Route(results: seq<TranscriptResult>, translate: (string, string, string) -> string,
                 synthesize: string -> Audio): Handling
  {
    HandleAll(results, Step(translate, synthesize), FailsAt)
  }

  /** handle_transcript_event: the `for result in results` loop. */
  method HandleTranscriptEvent(results: seq<TranscriptResult>, translate: (string, string, string) -> string,
                               synthesize: string -> Audio)
    returns (h: Handling)
    ensures h == Route(results, translate, synthesize)
  {
    var trace: seq<Action> := [];
    for i := 0 to |results|
      invariant Route(results[..i], translate, synthesize) == Handling(trace, false)
    {
      assert results[..i + 1][..i] == results[..i];
      var result := results[i];
      if result.isPartial {
        trace := ShowPartial(trace, result.alternatives);
      } else {
        trace := trace + [EndMark];
        if |result.alternatives| == 0 {
          HandleAllFailedStays(results, i + 1, Step(translate, synthesize), FailsAt);
          return Handling(trace, true);
        }
        var firstLangText := result.alternatives[0].transcript;
        var secondLangText := translate(firstLangText, SourceLangCode, TargetLangCode);
        var sound := synthesize(secondLangText);
        trace := trace + [Translate(firstLangText, SourceLangCode, TargetLangCode), Synthesize(secondLangText), Play(sound)];
      }
    }
    assert results[..|results|] == results;
    h := Handling(trace, false);
  }

  /** A final result that has an alternative is marked, then its first
      transcript is translated from SOURCE_LANGCODE to TARGET_LANGCODE, the
      translation synthesised and the audio played, in that order; other
      alternatives are ignored. */
  lemma FinalResultRoute(r: TranscriptResult, translate: (string, string, string) -> string, synthesize: string -> Audio)
    requires IsFinal(r) && |r.alternatives| > 0
    ensures !Route([r], translate, synthesize).failed
    ensures var first := r.alternatives[0].transcript;
      var translated := translate(first, SourceLangCode, TargetLangCode);
      Route([r], translate, synthesize).actions
        == [EndMark, Translate(first, SourceLangCode, TargetLangCode), Synthesize(translated), Play(synthesize(translated))]
  {
    assert [] + [r] == [r];
    HandleAllSnoc([], r, Step(translate, synthesize), FailsAt);
  }

  /** The handler raises exactly when some final result has no
      alternatives. */
  lemma FailedIff(results: seq<TranscriptResult>, translate: (string, string, string) -> string,
                  synthesize: string -> Audio)
    ensures Route(results, translate, synthesize).failed <==> exists i :: 0 <= i < |results| && FailsAt(results[i])
  {
    HandleAllFailedIff(results, Step(translate, synthesize), FailsAt);
  }

  /** Every translation request is for the first transcript of some final
      result, from SOURCE_LANGCODE to TARGET_LANGCODE. */
  lemma {:induction false} TranslatesFirstAlternatives(results: seq<TranscriptResult>,
                                                       translate: (string, string, string) -> string,
                                                       synthesize: string -> Audio)
    ensures forall a :: a in Route(results, translate, synthesize).actions && a.Translate? ==>
      a.source == SourceLangCode && a.target == TargetLangCode &&
      exists i :: 0 <= i < |results| && IsFinal(results[i]) && |results[i].alternatives| > 0 &&
        a.text == results[i].alternatives[0].transcript
    decreases |results|
  {
    if results != [] {
      var init := results[..|results| - 1];
      var last := results[|results| - 1];
      TranslatesFirstAlternatives(init, translate, synthesize);
      PartialActionsDisplayOnly(last.alternatives);
      var h := Route(init, translate, synthesize);
      forall a | a in Route(results, translate, synthesize).actions && a.Translate?
        ensures a.source == SourceLangCode && a.target == TargetLangCode
        ensures exists i :: 0 <= i < |results| && IsFinal(results[i]) && |results[i].alternatives| > 0 && a.text == results[i].alternatives[0].transcript
      {
        if a in h.actions {
          var i :| 0 <= i < |init| && IsFinal(init[i]) && |init[i].alternatives| > 0 &&
            a.text == init[i].alternatives[0].transcript;
          assert results[i] == init[i];
        } else {
          assert !h.failed && IsFinal(last) && |last.alternatives| > 0;
          var acts := FinalActions(last.alternatives[0].transcript, translate, synthesize);
          assert a in acts;
          assert a == acts[1];
        }
      }
    }
  }

  function IsTranslate(a: Action): bool {
    a.Translate?
  }

  /** A result asks for a translation once when it is final and has an
      alternative, and never otherwise. */
  lemma ResultTranslateCount(r: TranscriptResult, translate: (string, string, string) -> string, synthesize: string -> Audio)
    ensures Count(ResultActions(r, translate, synthesize), IsTranslate) == if IsFinal(r) && !FailsAt(r) then 1 else 0
  {
    var acts := ResultActions(r, translate, synthesize);
    if r.isPartial {
      PartialActionsDisplayOnly(r.alternatives);
      FilterNoneKept(acts, IsTranslate);
    } else if r.alternatives == [] {
      FilterNoneKept(acts, IsTranslate);
    } else {
      assert acts == [acts[0]] + [acts[1]] + acts[2..];
      FilterConcat([acts[0]] + [acts[1]], acts[2..], IsTranslate);
      FilterConcat([acts[0]], [acts[1]], IsTranslate);
      FilterNoneKept(acts[2..], IsTranslate);
    }
  }

  /** When nothing raised, there is one translation per final result;
      otherwise fewer. */
  lemma {:induction false} TranslateCount(results: seq<TranscriptResult>, translate: (string, string, string) -> string,
                                          synthesize: string -> Audio)
    ensures !Route(results, translate, synthesize).failed ==>
      Count(Route(results, translate, synthesize).actions, IsTranslate) == Count(results, IsFinal)
    ensures Route(results, translate, synthesize).failed ==>
      Count(Route(results, translate, synthesize).actions, IsTranslate) < Count(results, IsFinal)
    decreases |results|
  {
    if results != [] {
      var init := results[..|results| - 1];
      var last := results[|results| - 1];
      TranslateCount(init, translate, synthesize);
      var h := Route(init, translate, synthesize);
      assert results == init + [last];
      FilterConcat(init, [last], IsFinal);
      assert Count(results, IsFinal) == Count(init, IsFinal) + (if IsFinal(last) then 1 else 0);
      if !h.failed {
        FilterConcat(h.actions, ResultActions(last, translate, synthesize), IsTranslate);
        ResultTranslateCount(last, translate, synthesize);
      }
    }
  }

  /** Partial results never reach the translation or speech services: a
      batch of partial results is only displayed. */
  lemma {:induction false} PartialsOnlyDisplay(results: seq<TranscriptResult>, translate: (string, string, string) -> string,
                                               synthesize: string -> Audio)
    requires forall i :: 0 <= i < |results| ==> results[i].isPartial
    ensures !Route(results, translate, synthesize).failed
    ensures forall a :: a in Route(results, translate, synthesize).actions ==> a.ClearScreen? || a.Print?
    ensures |Route(results, translate, synthesize).actions| == 2 * PartialAlternatives(results)
    decreases |results|
  {
    if results != [] {
      var init := results[..|results| - 1];
      PartialsOnlyDisplay(init, translate, synthesize);
      PartialActionsDisplayOnly(results[|results| - 1].alternatives);
    }
  }
}
