/** The settings and the directory helper of the two-engine sample
    downloader; its define_data, read_file_to_xml and run are the shared
    ones of `SamplePlanner`. */
module GetSampleAudio {
  import opened SamplePlanner

  const AudioOutput: string := "./samples/"
  const Engines: seq<string> := ["standard", "neural"]

  /** The `inputs` dictionary of the script's entry point. */
  const DefaultInputs: Inputs := Inputs(
    genData := true,
    languagesFileExt := ".txt",
    languagesPath := "./languages",
    engines := Engines,
    audioDest := AudioOutput,
    outputFormat := "mp3",
    textType := "ssml")

  /** `required_path + engine`: plain concatenation, no separator. */
  function RequiredPath(dest: string, engine: string): (p: string)
    ensures |p| == |dest| + |engine|
    ensures p[..|dest|] == dest && p[|dest|..] == engine
  {
    dest + engine
  }

  /** ensure_required_path: the directories it makes, one per engine of
      `ENGINES`, in that order. */
  method EnsureRequiredPath(inputs: Inputs) returns (dirs: seq<string>)
    ensures |dirs| == |Engines|
    ensures forall i :: 0 <= i < |Engines| ==> dirs[i] == RequiredPath(inputs.audioDest, Engines[i])
  {
    dirs := [];
    for i := 0 to |Engines|
      invariant |dirs| == i
      invariant forall j :: 0 <= j < i ==> dirs[j] == RequiredPath(inputs.audioDest, Engines[j])
    {
      dirs := dirs + [RequiredPath(inputs.audioDest, Engines[i])];
    }
  }

  /** The default destination ends in a slash and run adds another one, so
      every planned output path starts `./samples//`. */
  lemma DefaultOutputDoubledSlash(engine: string, lan: string, ref: VoiceRef)
    ensures OutputPath(DefaultInputs, engine, lan, ref)[..11] == "./samples//"
  {
    var p := OutputPath(DefaultInputs, engine, lan, ref);
    var dir := AudioOutput + "/" + engine + "/";
    assert dir <= p;
    assert dir[..11] == "./samples//";
  }

  /** The output directory run writes into is the directory
      ensure_required_path made with one more `/` inserted after the
      destination: the same directory only where the destination ends in a
      slash and doubled slashes collapse. */
  lemma OutputDirFromRequired(inputs: Inputs, engine: string, lan: string, ref: VoiceRef)
    ensures var req := RequiredPath(inputs.audioDest, engine);
      req[..|inputs.audioDest|] + "/" + req[|inputs.audioDest|..] + "/" <= OutputPath(inputs, engine, lan, ref)
  {
  }

  /** The entry point: ensure_required_path, then run with the default
      inputs. With `gen_data` set, every engine has a plan, so run never
      fails on the lookup. */
  method RunDefaults(files: seq<DirEntry>, voices: seq<PollyService.VoiceDescription>, contents: string -> string)
    returns (dirs: seq<string>, r: RunOutcome)
    ensures |dirs| == |Engines|
    ensures forall i :: 0 <= i < |Engines| ==> dirs[i] == RequiredPath(DefaultInputs.audioDest, Engines[i])
    ensures r.Done?
    ensures r.jobs == EnginesJobs(DefaultInputs, contents, LanguageNames(files, ".txt"), voices, Engines)
    ensures r.counts == EngineCounts(LanguageNames(files, ".txt"), voices, Engines)
  {
    dirs := EnsureRequiredPath(DefaultInputs);
    r := Run(DefaultInputs, files, voices, contents);
  }
}
