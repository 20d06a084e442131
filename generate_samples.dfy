/** The settings and the two small helpers of the four-engine sample
    generator; its define_data, read_file_to_xml and run are the shared
    ones of `SamplePlanner`. */
module GenerateSamples {
  import opened Seqs
  import opened SamplePlanner

  const AudioOutput: string := "./audio_samples"
  const Engines: seq<string> := ["standard", "neural", "generative", "long-form"]

  /** The `inputs` dictionary of the script's entry point. */
  const DefaultInputs: Inputs := Inputs(
    genData := true,
    languagesFileExt := ".txt",
    languagesPath := "./languages",
    engines := Engines,
    audioDest := AudioOutput,
    outputFormat := "mp3",
    textType := "ssml")

  /** `f"{required_path}/{engine}"`. */
  function RequiredPath(dest: string, engine: string): (p: string)
    ensures |p| == |dest| + 1 + |engine|
    ensures p[..|dest|] == dest && p[|dest|] == '/' && p[|dest| + 1..] == engine
  {
    dest + "/" + engine
  }

  /** ensure_required_path: the directories it makes, one per engine of
      `ENGINES`, in that order. */
  method EnsureRequiredPath(inputs: Inputs) returns (dirs: seq<string>)
    ensures |dirs| == |Engines|
    ensures forall i :: 0 <= i < |Engines| ==> dirs[i] == RequiredPath(inputs.audioDest, Engines[i])
  {
    dirs := [];
    for i := 0 to |Engines|
      invariant |dirs| == i
      invariant forall j :: 0 <= j < i ==> dirs[j] == RequiredPath(inputs.audioDest, Engines[j])
    {
      dirs := dirs + [RequiredPath(inputs.audioDest, Engines[i])];
    }
  }

  /** Every file run plans for an engine goes into the directory that
      ensure_required_path made for it. */
  lemma OutputInRequiredDir(inputs: Inputs, engine: string, lan: string, ref: VoiceRef)
    ensures RequiredPath(inputs.audioDest, engine) + "/" <= OutputPath(inputs, engine, lan, ref)
  {
  }

  predicate IsPremium(e: string) {
    e == "generative" || e == "long-form"
  }

  /** `[e for e in ENGINES if e in ['generative', 'long-form']]`. */
  function PremiumEngines(engines: seq<string>): (ps: seq<string>)
    ensures forall e :: e in ps ==> e in engines && IsPremium(e)
  {
    Filter(engines, IsPremium)
  }

  /** The cost warning is printed exactly when some configured engine is a
      premium one. */
  lemma CostWarningIff(engines: seq<string>)
    ensures |PremiumEngines(engines)| > 0 <==> exists i :: 0 <= i < |engines| && IsPremium(engines[i])
  {
    if exists i :: 0 <= i < |engines| && IsPremium(engines[i]) {
      var i :| 0 <= i < |engines| && IsPremium(engines[i]);
      FilterKeeps(engines, IsPremium, i);
    } else if |PremiumEngines(engines)| > 0 {
      var e := PremiumEngines(engines)[0];
      assert e in PremiumEngines(engines);
    }
  }

  /** With the four engines configured, the premium list is the last two,
      in order, so the warning is printed. */
  lemma DefaultPremiumEngines()
    ensures PremiumEngines(Engines) == ["generative", "long-form"]
  {
    var a := ["standard", "neural", "generative"];
    assert Engines[..3] == a;
    assert a[..2] == ["standard", "neural"];
    assert ["standard", "neural"][..1] == ["standard"];
    assert ["standard"][..0] == [];
  }

  /** The entry point: ensure_required_path, then run with the default
      inputs. With `gen_data` set, every engine has a plan, so run never
      fails on the lookup. */
  method RunDefaults(files: seq<DirEntry>, voices: seq<PollyService.VoiceDescription>, contents: string -> string)
    returns (dirs: seq<string>, r: RunOutcome)
    ensures |dirs| == |Engines|
    ensures forall i :: 0 <= i < |Engines| ==> dirs[i] == RequiredPath(DefaultInputs.audioDest, Engines[i])
    ensures r.Done?
    ensures r.jobs == EnginesJobs(DefaultInputs, contents, LanguageNames(files, ".txt"), voices, Engines)
    ensures r.counts == EngineCounts(LanguageNames(files, ".txt"), voices, Engines)
  {
    dirs := EnsureRequiredPath(DefaultInputs);
    r := Run(DefaultInputs, files, voices, contents);
  }
}
