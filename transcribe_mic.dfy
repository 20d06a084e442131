/** The event handler of the transcription-only script: partial results
    are shown on the console and a final result only prints the
    end-of-segment mark. */
module TranscribeMic {
  import opened Seqs
  import opened Transcript
  import App = TranslateSpeechApp

  /** What one result shows: a partial one its alternatives, a final one
      the mark. */
  function ResultDisplay(r: TranscriptResult): seq<Action> {
    if r.isPartial then PartialActions(r.alternatives) else [EndMark]
  }

  /** The trace of handling the results in order. */
  function Display(results: seq<TranscriptResult>): seq<Action>
    decreases |results|
  {
    if results == [] then []
    else Display(results[..|results| - 1]) + ResultDisplay(results[|results| - 1])
  }

  /** One more result adds its own actions after the others'. */
  lemma DisplaySnoc(results: seq<TranscriptResult>, r: TranscriptResult)
    ensures Display(results + [r]) == Display(results) + ResultDisplay(r)
  {
    assert (results + [r])[..|results|] == results;
  }

  /** handle_transcript_event: the `for result in results` loop. */
  method HandleTranscriptEvent(results: seq<TranscriptResult>) returns (trace: seq<Action>)
    ensures trace == Display(results)
  {
    trace := [];
    for i := 0 to |results|
      invariant trace == Display(results[..i])
    {
      assert results[..i + 1][..i] == results[..i];
      var result := results[i];
      if result.isPartial {
        trace := ShowPartial(trace, result.alternatives);
      } else {
        trace := trace + [EndMark];
      }
    }
    assert results[..|results|] == results;
  }

  /** Two actions per alternative of a partial result, one per final
      result, and nothing else: only the console is touched, only partial
      transcripts are printed. */
  lemma {:induction false} DisplayShape(results: seq<TranscriptResult>)
    ensures |Display(results)| == 2 * PartialAlternatives(results) + Count(results, IsFinal)
    ensures forall a :: a in Display(results) ==> IsDisplay(a)
    ensures forall a :: a in Display(results) && a.Print? ==>
      exists i, j :: 0 <= i < |results| && results[i].isPartial && 0 <= j < |results[i].alternatives| &&
        a.text == results[i].alternatives[j].transcript
    decreases |results|
  {
    if results != [] {
      var init := results[..|results| - 1];
      var last := results[|results| - 1];
      DisplayShape(init);
      PartialActionsDisplayOnly(last.alternatives);
      forall a | a in Display(results) && a.Print?
        ensures exists i, j :: 0 <= i < |results| && results[i].isPartial && 0 <= j < |results[i].alternatives| && a.text == results[i].alternatives[j].transcript
      {
        if a in Display(init) {
          var i, j :| 0 <= i < |init| && init[i].isPartial && 0 <= j < |init[i].alternatives| &&
            a.text == init[i].alternatives[j].transcript;
          assert results[i] == init[i];
        } else {
          assert last.isPartial;
          var j :| 0 <= j < |last.alternatives| && a.text == last.alternatives[j].transcript;
          assert results[|results| - 1] == last;
        }
      }
    }
  }

  function IsEndMark(a: Action): bool {
    a.EndMark?
  }

  lemma ResultEndMarks(r: TranscriptResult)
    ensures Count(ResultDisplay(r), IsEndMark) == if IsFinal(r) then 1 else 0
  {
    if r.isPartial {
      PartialActionsDisplayOnly(r.alternatives);
      FilterNoneKept(ResultDisplay(r), IsEndMark);
    } else {
      assert [EndMark][..0] == [];
    }
  }

  /** The number of end marks is the number of final results. */
  lemma {:induction false} EndMarkCount(results: seq<TranscriptResult>)
    ensures Count(Display(results), IsEndMark) == Count(results, IsFinal)
    decreases |results|
  {
    if results != [] {
      var init := results[..|results| - 1];
      var last := results[|results| - 1];
      EndMarkCount(init);
      assert results == init + [last];
      DisplaySnoc(init, last);
      FilterConcat(Display(init), ResultDisplay(last), IsEndMark);
      FilterConcat(init, [last], IsFinal);
      ResultEndMarks(last);
    }
  }

  /** This script's handler is the translating one with the calls to the
      translation and speech services and the playback taken out. */
  lemma {:induction false} DisplayIsAppWithoutServices(results: seq<TranscriptResult>,
                                                       translate: (string, string, string) -> string,
                                                       synthesize: string -> Audio)
    requires !App.Route(results, translate, synthesize).failed
    ensures Filter(App.Route(results, translate, synthesize).actions, IsDisplay) == Display(results)
    decreases |results|
  {
    if results != [] {
      var init := results[..|results| - 1];
      var last := results[|results| - 1];
      var h := App.Route(init, translate, synthesize);
      assert results == init + [last];
      HandleAllSnoc(init, last, App.Step(translate, synthesize), App.FailsAt);
      DisplaySnoc(init, last);
      assert !h.failed;
      DisplayIsAppWithoutServices(init, translate, synthesize);
      if last.isPartial {
        FilterConcat(h.actions, App.ResultActions(last, translate, synthesize), IsDisplay);
        PartialActionsDisplayOnly(last.alternatives);
        FilterAllKept(PartialActions(last.alternatives), IsDisplay);
      } else {
        FilterConcat(h.actions, App.ResultActions(last, translate, synthesize), IsDisplay);
        App.FinalDisplaysMark(last.alternatives[0].transcript, translate, synthesize);
      }
    }
  }
}
