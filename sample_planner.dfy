/** The planning logic the two sample-audio generators share: per engine, a
    dictionary from language name (a sample file name with its extension
    removed) to the (LanguageCode, VoiceId) records of the voices that
    support the engine and whose language name contains it; then, per
    engine, one synthesis job per record, with its input and output paths,
    and the number of jobs. The speech service, the directory listing, the
    file reads and writes are inputs or outputs of the model, not effects. */
module SamplePlanner {
  import opened Strings
  import G = Grouping
  import opened PollyService
  import Ssml

  /** `{'LanguageCode': ..., 'VoiceId': ...}`. */
  datatype VoiceRef = VoiceRef(languageCode: string, voiceId: string)

  /** One name returned by `listdir`, with the result of `isfile` on it. */
  datatype DirEntry = DirEntry(name: string, isFile: bool)

  /** The fields of the `inputs` dictionary that `define_data` and `run` read. */
  datatype Inputs = Inputs(
    genData: bool,
    languagesFileExt: string,
    languagesPath: string,
    engines: seq<string>,
    audioDest: string,
    outputFormat: string,
    textType: string)

  function Ref(v: VoiceDescription): VoiceRef {
    VoiceRef(v.languageCode, v.id)
  }

  // ---------------------------------------------------------------------
  // Language names

  /** `[f.replace(ext, '') for f in listdir(path) if isfile(f)]`, in listing
      order. */
  function LanguageNames(files: seq<DirEntry>, ext: string): (langs: seq<string>)
    ensures |langs| <= |files|
    decreases |files|
  {
    if files == [] then []
    else
      var f := files[|files| - 1];
      LanguageNames(files[..|files| - 1], ext) + (if f.isFile then [RemoveAll(f.name, ext)] else [])
  }

  /** Each language name is a listed file's name with every occurrence of the
      extension removed, and every listed file gives one. */
  lemma {:induction false} LanguageNamesFrom(files: seq<DirEntry>, ext: string)
    ensures forall l :: l in LanguageNames(files, ext) ==>
      exists i :: 0 <= i < |files| && files[i].isFile && l == RemoveAll(files[i].name, ext)
    ensures forall i :: 0 <= i < |files| && files[i].isFile ==> RemoveAll(files[i].name, ext) in LanguageNames(files, ext)
    decreases |files|
  {
    if files != [] {
      var init := files[..|files| - 1];
      LanguageNamesFrom(init, ext);
      forall l | l in LanguageNames(files, ext)
        ensures exists i :: 0 <= i < |files| && files[i].isFile && l == RemoveAll(files[i].name, ext)
      {
        if l in LanguageNames(init, ext) {
          var i :| 0 <= i < |init| && init[i].isFile && l == RemoveAll(init[i].name, ext);
          assert files[i] == init[i];
        } else {
          assert files[|files| - 1].isFile && l == RemoveAll(files[|files| - 1].name, ext);
        }
      }
      forall i | 0 <= i < |files| && files[i].isFile
        ensures RemoveAll(files[i].name, ext) in LanguageNames(files, ext)
      {
        if i < |init| {
          assert init[i] == files[i];
        }
      }
    }
  }

  /** The extension is removed wherever it occurs, not only as a suffix: a
      leading occurrence goes too. */
  lemma RemoveAllLeading(s: string, ext: string)
    requires ext != []
    ensures RemoveAll(ext + s, ext) == RemoveAll(s, ext)
  {
    assert (ext + s)[|ext|..] == s;
  }

  // ---------------------------------------------------------------------
  // The per-engine plan built by define_data

  /** `engine in vdata['SupportedEngines'] and voice in vdata['LanguageName']`. */
  predicate Matches(v: VoiceDescription, engine: string, lang: string) {
    engine in v.supportedEngines && Contains(v.languageName, lang)
  }

  /** The records of the voices matching `lang`, in response order. */
  function MatchingRefs(voices: seq<VoiceDescription>, engine: string, lang: string): seq<VoiceRef>
    decreases |voices|
  {
    if voices == [] then []
    else
      var v := voices[|voices| - 1];
      MatchingRefs(voices[..|voices| - 1], engine, lang) + (if Matches(v, engine, lang) then [Ref(v)] else [])
  }

  /** A record of voice `i` is kept exactly when voice `i` matches. */
  lemma {:induction false} MatchingRefsIff(voices: seq<VoiceDescription>, engine: string, lang: string)
    ensures forall i :: 0 <= i < |voices| && Matches(voices[i], engine, lang) ==>
      Ref(voices[i]) in MatchingRefs(voices, engine, lang)
    ensures forall r :: r in MatchingRefs(voices, engine, lang) ==>
      exists i :: 0 <= i < |voices| && Matches(voices[i], engine, lang) && r == Ref(voices[i])
    decreases |voices|
  {
    if voices != [] {
      var init := voices[..|voices| - 1];
      MatchingRefsIff(init, engine, lang);
      forall i | 0 <= i < |voices| && Matches(voices[i], engine, lang)
        ensures Ref(voices[i]) in MatchingRefs(voices, engine, lang)
      {
        if i < |init| {
          assert init[i] == voices[i];
        }
      }
      forall r | r in MatchingRefs(voices, engine, lang)
        ensures exists i :: 0 <= i < |voices| && Matches(voices[i], engine, lang) && r == Ref(voices[i])
      {
        if r in MatchingRefs(init, engine, lang) {
          var i :| 0 <= i < |init| && Matches(init[i], engine, lang) && r == Ref(init[i]);
          assert voices[i] == init[i];
        }
      }
    }
  }

  /** The (language, record) pairs of one language, in response order. */
  function LangPairs(lang: string, voices: seq<VoiceDescription>, engine: string): (ps: seq<(string, VoiceRef)>)
    decreases |voices|
  {
    if voices == [] then []
    else
      var v := voices[|voices| - 1];
      LangPairs(lang, voices[..|voices| - 1], engine) + (if Matches(v, engine, lang) then [(lang, Ref(v))] else [])
  }

  /** The pairs the nested loops of define_data visit: languages in listing
      order, and for each the matching voices in response order. */
  function PlanPairs(langs: seq<string>, voices: seq<VoiceDescription>, engine: string): seq<(string, VoiceRef)>
    decreases |langs|
  {
    if langs == [] then []
    else PlanPairs(langs[..|langs| - 1], voices, engine) + LangPairs(langs[|langs| - 1], voices, engine)
  }

  /** `data[engine]` after define_data. */
  function EnginePlan(langs: seq<string>, voices: seq<VoiceDescription>, engine: string): (plan: G.Groups<VoiceRef>)
    ensures G.Valid(plan)
  {
    G.AppendAll(G.Empty(), PlanPairs(langs, voices, engine))
  }

  /** Number of times `x` occurs in `s`. */
  function Occurrences(s: seq<string>, x: string): nat
    decreases |s|
  {
    if s == [] then 0
    else Occurrences(s[..|s| - 1], x) + (if s[|s| - 1] == x then 1 else 0)
  }

  /** `s` repeated `n` times. */
  function Repeat<T>(s: seq<T>, n: nat): seq<T>
    decreases n
  {
    if n == 0 then [] else Repeat(s, n - 1) + s
  }

  lemma {:induction false} LangPairsValues(lang: string, voices: seq<VoiceDescription>, engine: string, k: string)
    ensures G.ValuesFor(LangPairs(lang, voices, engine), k) == if k == lang then MatchingRefs(voices, engine, lang) else []
    decreases |voices|
  {
    if voices != [] {
      var init := voices[..|voices| - 1];
      LangPairsValues(lang, init, engine, k);
      var ps := LangPairs(lang, voices, engine);
      var v := voices[|voices| - 1];
      var tail := if Matches(v, engine, lang) then [(lang, Ref(v))] else [];
      G.ValuesForConcat(LangPairs(lang, init, engine), tail, k);
      assert tail == [] || tail[..0] == [];
    }
  }

  lemma {:induction false} PlanPairsValues(langs: seq<string>, voices: seq<VoiceDescription>, engine: string, k: string)
    ensures G.ValuesFor(PlanPairs(langs, voices, engine), k) == Repeat(MatchingRefs(voices, engine, k), Occurrences(langs, k))
    decreases |langs|
  {
    if langs != [] {
      var init := langs[..|langs| - 1];
      var last := langs[|langs| - 1];
      PlanPairsValues(init, voices, engine, k);
      G.ValuesForConcat(PlanPairs(init, voices, engine), LangPairs(last, voices, engine), k);
      LangPairsValues(last, voices, engine, k);
    }
  }

  /** What define_data stores under each language: the matching records, in
      response order, once for every file that gave that language name. */
  lemma EnginePlanGet(langs: seq<string>, voices: seq<VoiceDescription>, engine: string, k: string)
    ensures G.Get(EnginePlan(langs, voices, engine), k) == Repeat(MatchingRefs(voices, engine, k), Occurrences(langs, k))
  {
    var ps := PlanPairs(langs, voices, engine);
    G.AppendAllFromEmpty(ps, k);
    PlanPairsValues(langs, voices, engine, k);
  }

  /** A language is present in the plan exactly when it was listed and some
      voice matches it, and no language is left with an empty list. */
  lemma EnginePlanDomain(langs: seq<string>, voices: seq<VoiceDescription>, engine: string, k: string)
    ensures G.NoEmptyGroup(EnginePlan(langs, voices, engine))
    ensures k in EnginePlan(langs, voices, engine).entries <==>
      Occurrences(langs, k) > 0 && |MatchingRefs(voices, engine, k)| > 0
  {
    var ps := PlanPairs(langs, voices, engine);
    var plan := G.AppendAll(G.Empty(), ps);
    assert EnginePlan(langs, voices, engine) == plan;
    G.AppendAllDomain(G.Empty(), ps, k);
    assert k in plan.entries <==> |G.ValuesFor(ps, k)| > 0;
    PlanPairsValues(langs, voices, engine, k);
    RepeatNonEmpty(MatchingRefs(voices, engine, k), Occurrences(langs, k));
  }

  /** The languages of the plan come in the order define_data first stores
      a record for them: listing order, skipping unmatched and repeated
      languages. */
  lemma EnginePlanKeys(langs: seq<string>, voices: seq<VoiceDescription>, engine: string)
    ensures EnginePlan(langs, voices, engine).keys == G.WithNewKeys([], G.KeysOf(PlanPairs(langs, voices, engine)))
  {
    G.AppendAllKeys(G.Empty(), PlanPairs(langs, voices, engine));
  }

  lemma {:induction false} RepeatNonEmpty<T>(s: seq<T>, n: nat)
    ensures |Repeat(s, n)| > 0 <==> n > 0 && |s| > 0
    decreases n
  {
    if n > 0 {
      RepeatNonEmpty(s, n - 1);
    }
  }

  /** When the listing gives a language name once, its list is exactly the
      matching records in response order. */
  lemma EnginePlanDistinct(langs: seq<string>, voices: seq<VoiceDescription>, engine: string, k: string)
    requires Occurrences(langs, k) == 1
    ensures G.Get(EnginePlan(langs, voices, engine), k) == MatchingRefs(voices, engine, k)
  {
    EnginePlanGet(langs, voices, engine, k);
    assert Repeat(MatchingRefs(voices, engine, k), 0) == [];
  }

  lemma LangPairsStep(lang: string, voices: seq<VoiceDescription>, engine: string, j: nat)
    requires j < |voices|
    ensures LangPairs(lang, voices[..j + 1], engine)
         == LangPairs(lang, voices[..j], engine) + (if Matches(voices[j], engine, lang) then [(lang, Ref(voices[j]))] else [])
  {
    assert voices[..j + 1][..j] == voices[..j];
  }

  lemma PlanPairsStep(langs: seq<string>, voices: seq<VoiceDescription>, engine: string, i: nat)
    requires i < |langs|
    ensures PlanPairs(langs[..i + 1], voices, engine) == PlanPairs(langs[..i], voices, engine) + LangPairs(langs[i], voices, engine)
  {
    assert langs[..i + 1][..i] == langs[..i];
  }

  /** `vd = d.get(voice)`, then `vd.append(...)` when `vd` is a non-empty
      list, else `d[voice] = [...]`: in a dictionary without empty lists, both
      branches are the one append. */
  lemma TruthyGetIsAppend(plan: G.Groups<VoiceRef>, k: string, x: VoiceRef)
    requires G.Valid(plan) && G.NoEmptyGroup(plan)
    ensures (if |G.Get(plan, k)| > 0 then G.Append(plan, k, x) else G.Put(plan, k, [x])) == G.Append(plan, k, x)
  {
    if |G.Get(plan, k)| == 0 {
      G.PutNewIsAppend(plan, k, x);
    }
  }

  lemma AddLanguageStep(plan: G.Groups<VoiceRef>, cur: G.Groups<VoiceRef>, lang: string,
                        voices: seq<VoiceDescription>, engine: string, j: nat)
    requires G.Valid(plan) && j < |voices|
    requires cur == G.AppendAll(plan, LangPairs(lang, voices[..j], engine))
    ensures G.AppendAll(plan, LangPairs(lang, voices[..j + 1], engine))
         == if Matches(voices[j], engine, lang) then G.Append(cur, lang, Ref(voices[j])) else cur
  {
    LangPairsStep(lang, voices, engine, j);
    if Matches(voices[j], engine, lang) {
      G.AppendAllSnoc(plan, LangPairs(lang, voices[..j], engine), (lang, Ref(voices[j])));
    } else {
      assert LangPairs(lang, voices[..j + 1], engine) == LangPairs(lang, voices[..j], engine);
    }
  }

  /** The inner loop of define_data for one language: the records of the
      matching voices are appended under it, in response order. */
  method AddLanguage(plan: G.Groups<VoiceRef>, lang: string, voices: seq<VoiceDescription>, engine: string)
    returns (plan': G.Groups<VoiceRef>)
    requires G.Valid(plan) && G.NoEmptyGroup(plan)
    ensures G.Valid(plan') && G.NoEmptyGroup(plan')
    ensures plan' == G.AppendAll(plan, LangPairs(lang, voices, engine))
  {
    plan' := plan;
    for j := 0 to |voices|
      invariant G.Valid(plan') && G.NoEmptyGroup(plan')
      invariant plan' == G.AppendAll(plan, LangPairs(lang, voices[..j], engine))
    {
      AddLanguageStep(plan, plan', lang, voices, engine, j);
      var v := voices[j];
      if engine in v.supportedEngines && Contains(v.languageName, lang) {
        TruthyGetIsAppend(plan', lang, Ref(v));
        var vd := G.Get(plan', lang);
        if |vd| > 0 {
          plan' := G.Append(plan', lang, Ref(v));
        } else {
          plan' := G.Put(plan', lang, [Ref(v)]);
        }
      }
    }
    assert voices[..|voices|] == voices;
  }

  /** define_data: `data[engine]` is replaced by the plan built from the
      listed language files and the described voices; the entries of the
      other engines are left as they were. */
  method DefineData(data: map<string, G.Groups<VoiceRef>>, inputs: Inputs, files: seq<DirEntry>,
                    voices: seq<VoiceDescription>, engine: string)
    returns (data': map<string, G.Groups<VoiceRef>>)
    ensures engine in data' && data'[engine] == EnginePlan(LanguageNames(files, inputs.languagesFileExt), voices, engine)
    ensures forall e :: e != engine ==> (e in data' <==> e in data)
    ensures forall e :: e in data && e != engine ==> data'[e] == data[e]
  {
    var plan := G.Empty();
    var larr := LanguageNames(files, inputs.languagesFileExt);
    for i := 0 to |larr|
      invariant G.Valid(plan) && G.NoEmptyGroup(plan)
      invariant plan == G.AppendAll(G.Empty(), PlanPairs(larr[..i], voices, engine))
    {
      PlanPairsStep(larr, voices, engine, i);
      G.AppendAllConcat(G.Empty(), PlanPairs(larr[..i], voices, engine), LangPairs(larr[i], voices, engine));
      plan := AddLanguage(plan, larr[i], voices, engine);
    }
    assert larr[..|larr|] == larr;
    data' := data[engine := plan];
  }

  // ---------------------------------------------------------------------
  // The synthesis jobs planned by run

  /** The keyword arguments of one synthesize_speech call. */
  datatype SampleRequest = SampleRequest(
    voiceId: string,
    languageCode: string,
    outputFormat: string,
    text: string,
    textType: string,
    engine: string)

  /** One synthesize_speech_mp3 call: the text file read, the audio file
      written, and the request sent. */
  datatype Job = Job(inputPath: string, outputPath: string, request: SampleRequest)

  /** `f'{languages_path}/{lan}.txt'`: the extension is always `.txt`,
      whatever `languages_file_ext` is. */
  function InputPath(inputs: Inputs, lan: string): (p: string)
    ensures inputs.languagesPath + "/" <= p
    ensures |p| == |inputs.languagesPath| + 1 + |lan| + 4
    ensures p[|p| - 4..] == ".txt"
    ensures p[|inputs.languagesPath| + 1..|p| - 4] == lan
  {
    var dir := inputs.languagesPath + "/";
    var p := dir + lan + ".txt";
    assert p == dir + (lan + ".txt");
    p
  }

  /** `f'{audio_dest}/{engine}/{lan}-{LanguageCode}-{VoiceId}.{OutputFormat}'`. */
  function OutputPath(inputs: Inputs, engine: string, lan: string, ref: VoiceRef): (p: string)
    ensures inputs.audioDest + "/" + engine + "/" <= p
    ensures |p| > |inputs.outputFormat|
    ensures p[|p| - |inputs.outputFormat| - 1..] == "." + inputs.outputFormat
  {
    var dir := inputs.audioDest + "/" + engine + "/";
    var p := dir + lan + "-" + ref.languageCode + "-" + ref.voiceId + "." + inputs.outputFormat;
    assert p == dir + (lan + "-" + ref.languageCode + "-" + ref.voiceId + "." + inputs.outputFormat);
    p
  }

  /** `read_file_to_xml(path)` given what the file holds: the envelope is
      put around the text unconditionally. */
  function ReadFileToXml(contents: string): (x: string)
    ensures Ssml.IsWrapped(x)
    ensures |x| == |contents| + 18 && x[9..|x| - 9] == contents
  {
    Ssml.EnvelopeIsWrapped(contents);
    Ssml.Envelope(contents)
  }

  /** Because the envelope is unconditional, text that is already SSML gets
      a second one: unlike the interactive demo's wrapping, it is not
      idempotent. */
  lemma ReadFileToXmlNotIdempotent(contents: string)
    ensures ReadFileToXml(ReadFileToXml(contents)) != ReadFileToXml(contents)
    ensures Ssml.IsWrapped(contents) ==> ReadFileToXml(contents) != Ssml.WrapIfNeeded(contents)
  {
    Ssml.EnvelopeNotIdempotent(contents);
  }

  function JobFor(inputs: Inputs, files: string -> string, engine: string, lan: string, ref: VoiceRef): Job {
    var path := InputPath(inputs, lan);
    Job(path, OutputPath(inputs, engine, lan, ref),
        SampleRequest(ref.voiceId, ref.languageCode, inputs.outputFormat, ReadFileToXml(files(path)),
                      inputs.textType, engine))
  }

  /** The jobs for the records of one language, in list order. */
  function LangJobs(inputs: Inputs, files: string -> string, engine: string, lan: string, refs: seq<VoiceRef>)
    : (jobs: seq<Job>)
    ensures |jobs| == |refs|
    ensures forall i :: 0 <= i < |refs| ==> jobs[i] == JobFor(inputs, files, engine, lan, refs[i])
    decreases |refs|
  {
    if refs == [] then []
    else LangJobs(inputs, files, engine, lan, refs[..|refs| - 1]) + [JobFor(inputs, files, engine, lan, refs[|refs| - 1])]
  }

  /** The jobs for one engine's plan: languages in key order, records in list order. */
  function PlanJobs(inputs: Inputs, files: string -> string, engine: string, plan: G.Groups<VoiceRef>, keys: seq<string>)
    : seq<Job>
    decreases |keys|
  {
    if keys == [] then []
    else
      var lan := keys[|keys| - 1];
      PlanJobs(inputs, files, engine, plan, keys[..|keys| - 1]) + LangJobs(inputs, files, engine, lan, G.Get(plan, lan))
  }

  /** The count run prints for an engine is the number of files it plans:
      the total length of the lists in `data[engine]`. */
  lemma {:induction false} PlanJobsCount(inputs: Inputs, files: string -> string, engine: string,
                                         plan: G.Groups<VoiceRef>, keys: seq<string>)
    ensures |PlanJobs(inputs, files, engine, plan, keys)| == G.Total(plan, keys)
    decreases |keys|
  {
    if keys != [] {
      PlanJobsCount(inputs, files, engine, plan, keys[..|keys| - 1]);
    }
  }

  /** Every planned job writes under `{audio_dest}/{engine}/`, reads a `.txt`
      file under the languages directory and asks for that engine. */
  lemma {:induction false} PlanJobsShape(inputs: Inputs, files: string -> string, engine: string,
                                         plan: G.Groups<VoiceRef>, keys: seq<string>)
    ensures forall j :: j in PlanJobs(inputs, files, engine, plan, keys) ==>
      inputs.audioDest + "/" + engine + "/" <= j.outputPath && j.request.engine == engine
      && inputs.languagesPath + "/" <= j.inputPath
    decreases |keys|
  {
    if keys != [] {
      PlanJobsShape(inputs, files, engine, plan, keys[..|keys| - 1]);
    }
  }

  /** All jobs of the engines listed, in engine order. */
  function EnginesJobs(inputs: Inputs, files: string -> string, langs: seq<string>, voices: seq<VoiceDescription>,
                       engines: seq<string>): seq<Job>
    decreases |engines|
  {
    if engines == [] then []
    else
      var e := engines[|engines| - 1];
      var plan := EnginePlan(langs, voices, e);
      EnginesJobs(inputs, files, langs, voices, engines[..|engines| - 1]) + PlanJobs(inputs, files, e, plan, plan.keys)
  }

  /** The count run prints for one engine: the total of its plan's lists. */
  function EngineCount(langs: seq<string>, voices: seq<VoiceDescription>, engine: string): nat {
    var plan := EnginePlan(langs, voices, engine);
    G.Total(plan, plan.keys)
  }

  /** The counts run prints, one per engine, in engine order. */
  function EngineCounts(langs: seq<string>, voices: seq<VoiceDescription>, engines: seq<string>): (cs: seq<nat>)
    ensures |cs| == |engines|
    decreases |engines|
  {
    if engines == [] then []
    else EngineCounts(langs, voices, engines[..|engines| - 1]) + [EngineCount(langs, voices, engines[|engines| - 1])]
  }

  /** The `i`-th printed count is the count of the `i`-th engine. */
  lemma {:induction false} EngineCountsAt(langs: seq<string>, voices: seq<VoiceDescription>, engines: seq<string>, i: nat)
    requires i < |engines|
    ensures EngineCounts(langs, voices, engines)[i] == EngineCount(langs, voices, engines[i])
    decreases |engines|
  {
    if i < |engines| - 1 {
      EngineCountsAt(langs, voices, engines[..|engines| - 1], i);
    }
  }

  lemma EnginesJobsStep(inputs: Inputs, files: string -> string, langs: seq<string>, voices: seq<VoiceDescription>,
                        engines: seq<string>, i: nat)
    requires i < |engines|
    ensures EnginesJobs(inputs, files, langs, voices, engines[..i + 1])
         == EnginesJobs(inputs, files, langs, voices, engines[..i])
          + PlanJobs(inputs, files, engines[i], EnginePlan(langs, voices, engines[i]), EnginePlan(langs, voices, engines[i]).keys)
    ensures EngineCounts(langs, voices, engines[..i + 1])
         == EngineCounts(langs, voices, engines[..i]) + [EngineCount(langs, voices, engines[i])]
  {
    assert engines[..i + 1][..i] == engines[..i];
  }

  /** One pass of run's engine loop extends the jobs and the counts by
      those of the next engine. */
  lemma RunStep(inputs: Inputs, files: string -> string, langs: seq<string>, voices: seq<VoiceDescription>,
                engines: seq<string>, i: nat, plan: G.Groups<VoiceRef>, jobs: seq<Job>, counts: seq<nat>,
                more: seq<Job>, count: nat)
    requires i < |engines| && plan == EnginePlan(langs, voices, engines[i])
    requires jobs == EnginesJobs(inputs, files, langs, voices, engines[..i])
    requires counts == EngineCounts(langs, voices, engines[..i])
    requires more == PlanJobs(inputs, files, engines[i], plan, plan.keys) && count == G.Total(plan, plan.keys)
    ensures jobs + more == EnginesJobs(inputs, files, langs, voices, engines[..i + 1])
    ensures counts + [count] == EngineCounts(langs, voices, engines[..i + 1])
  {
    EnginesJobsStep(inputs, files, langs, voices, engines, i);
  }

  /** What run ends with: all planned jobs and the per-engine counts, or the
      `KeyError` of the first engine without a plan (when `gen_data` is
      false), with what was planned before it. */
  datatype RunOutcome =
    | Done(jobs: seq<Job>, counts: seq<nat>)
    | MissingEngine(engine: string, jobsBefore: seq<Job>, countsBefore: seq<nat>)

  /** The innermost loop of run: one job per record of one language. */
  method AddLangJobs(jobs: seq<Job>, inputs: Inputs, files: string -> string, engine: string, lan: string,
                     refs: seq<VoiceRef>)
    returns (jobs': seq<Job>)
    ensures jobs' == jobs + LangJobs(inputs, files, engine, lan, refs)
  {
    jobs' := jobs;
    for j := 0 to |refs|
      invariant jobs' == jobs + LangJobs(inputs, files, engine, lan, refs[..j])
    {
      assert refs[..j + 1][..j] == refs[..j];
      jobs' := jobs' + [JobFor(inputs, files, engine, lan, refs[j])];
    }
    assert refs[..|refs|] == refs;
  }

  lemma PlanJobsStep(inputs: Inputs, files: string -> string, engine: string, plan: G.Groups<VoiceRef>,
                     keys: seq<string>, k: nat)
    requires k < |keys|
    ensures PlanJobs(inputs, files, engine, plan, keys[..k + 1])
         == PlanJobs(inputs, files, engine, plan, keys[..k]) + LangJobs(inputs, files, engine, keys[k], G.Get(plan, keys[k]))
    ensures G.Total(plan, keys[..k + 1]) == G.Total(plan, keys[..k]) + |G.Get(plan, keys[k])|
  {
    assert keys[..k + 1][..k] == keys[..k];
  }

  /** The second loop of run for one engine: the jobs and the count. */
  method EngineJobs(inputs: Inputs, files: string -> string, engine: string, plan: G.Groups<VoiceRef>)
    returns (jobs: seq<Job>, count: nat)
    requires G.Valid(plan)
    ensures jobs == PlanJobs(inputs, files, engine, plan, plan.keys)
    ensures count == G.Total(plan, plan.keys) == |jobs|
  {
    jobs := [];
    count := 0;
    var keys := plan.keys;
    for k := 0 to |keys|
      invariant jobs == PlanJobs(inputs, files, engine, plan, keys[..k])
      invariant count == G.Total(plan, keys[..k])
    {
      var lan := keys[k];
      var refs := G.Get(plan, lan);
      PlanJobsStep(inputs, files, engine, plan, keys, k);
      jobs := AddLangJobs(jobs, inputs, files, engine, lan, refs);
      count := count + |refs|;
    }
    assert keys[..|keys|] == keys;
    PlanJobsCount(inputs, files, engine, plan, keys);
  }

  /** The first loop of run: define_data for every engine when `gen_data`
      holds, nothing otherwise. */
  method DefineAll(inputs: Inputs, files: seq<DirEntry>, voices: seq<VoiceDescription>)
    returns (data: map<string, G.Groups<VoiceRef>>)
    ensures forall e :: e in data <==> inputs.genData && e in inputs.engines
    ensures forall e :: e in data ==> data[e] == EnginePlan(LanguageNames(files, inputs.languagesFileExt), voices, e)
  {
    data := map[];
    var engines := inputs.engines;
    for i := 0 to |engines|
      invariant forall e :: e in data <==> inputs.genData && e in engines[..i]
      invariant forall e :: e in data ==> data[e] == EnginePlan(LanguageNames(files, inputs.languagesFileExt), voices, e)
    {
      assert engines[..i + 1] == engines[..i] + [engines[i]];
      if inputs.genData {
        data := DefineData(data, inputs, files, voices, engines[i]);
      }
    }
    assert engines[..|engines|] == engines;
  }

  /** run over the directory listing, the voice list the service describes
      (the same for every engine) and the file contents: with `gen_data`,
      the jobs of every engine in order, each engine's count being the total
      of its plan; without it, the lookup of the first engine fails before
      any job. */
  method Run(inputs: Inputs, files: seq<DirEntry>, voices: seq<VoiceDescription>, contents: string -> string)
    returns (r: RunOutcome)
    ensures inputs.genData || inputs.engines == [] ==>
      r.Done? && r.jobs == EnginesJobs(inputs, contents, LanguageNames(files, inputs.languagesFileExt), voices, inputs.engines)
    ensures r.Done? ==> r.counts == EngineCounts(LanguageNames(files, inputs.languagesFileExt), voices, inputs.engines)
    ensures !inputs.genData && inputs.engines != [] ==> r == MissingEngine(inputs.engines[0], [], [])
  {
    var data := DefineAll(inputs, files, voices);
    var langs := LanguageNames(files, inputs.languagesFileExt);
    r := RunEngines(inputs, contents, data, langs, voices);
  }

  /** The engine loop of run over the dictionary define_data built for
      the listed languages `langs`. */
  method RunEngines(inputs: Inputs, contents: string -> string, data: map<string, G.Groups<VoiceRef>>,
                    langs: seq<string>, voices: seq<VoiceDescription>)
    returns (r: RunOutcome)
    requires forall e :: e in data <==> inputs.genData && e in inputs.engines
    requires forall e :: e in data ==> data[e] == EnginePlan(langs, voices, e)
    ensures inputs.genData || inputs.engines == [] ==>
      r.Done? && r.jobs == EnginesJobs(inputs, contents, langs, voices, inputs.engines)
    ensures r.Done? ==> r.counts == EngineCounts(langs, voices, inputs.engines)
    ensures !inputs.genData && inputs.engines != [] ==> r == MissingEngine(inputs.engines[0], [], [])
  {
    var engines := inputs.engines;
    var jobs: seq<Job> := [];
    var counts: seq<nat> := [];
    for i := 0 to |engines|
      invariant counts == EngineCounts(langs, voices, engines[..i])
      invariant inputs.genData ==> jobs == EnginesJobs(inputs, contents, langs, voices, engines[..i])
      invariant !inputs.genData ==> i == 0 && jobs == []
    {
      var engine := engines[i];
      if engine !in data {
        return MissingEngine(engine, jobs, counts);
      }
      var more, count := EngineJobs(inputs, contents, engine, data[engine]);
      RunStep(inputs, contents, langs, voices, engines, i, data[engine], jobs, counts, more, count);
      jobs := jobs + more;
      counts := counts + [count];
    }
    assert engines[..|engines|] == engines;
    r := Done(jobs, counts);
  }
}
