# Amazon Polly / Transcribe demo scripts — a Dafny model

This project models the logic inside five demo scripts that drive the Amazon
Polly text-to-speech and Amazon Transcribe streaming services. It also proves
properties of that model.

- **Interactive demo** (`polly_demo.py`):
  - `PollyDemo.voices_data` is the voice catalogue, grouped by language name.
  - The engine list is the sorted union of every voice's supported engines.
  - The per-engine filtered catalogue drops languages left empty.
  - The numbered menus have a quit letter (`q`) or a back letter (`b`).
  - It matches sample texts to the chosen language and makes a short preview.
  - It wraps text in `<speak>` before sending it and names the temporary mp3.
  - Cleanup deletes the temporary files by glob.
- **Sample generators** (`generate_samples.py`, `get-sample-audio.py`):
  - `define_data` builds, per engine, a dictionary from language name to the
    (LanguageCode, VoiceId) records of matching voices.
  - `run` turns that dictionary into synthesis jobs, each with its input path,
    output path and request, plus one count per engine.
  - `read_file_to_xml` wraps the text unconditionally.
  - `ensure_required_path` computes the directories it creates.
  - `print_engine_info` shows a cost warning for premium engines.
  - The two scripts share one model (`SamplePlanner`). Each has a thin module
    with its own constants and its own directory rule.
- **Streaming scripts** (`app.py`, `transcribe-mic.py`):
  - `handle_transcript_event` becomes a trace of observable actions: clear,
    print, end mark, translate, synthesize, play.
  - `write_chunks` becomes one send per captured block, then the end of the
    stream.

Modules:

- `Wrappers` and `Seqs`: Option, selection outcome, list filtering.
- `Strings`: Python's `strip`, `lower`, `in`, `replace(ext, '')`, `int()` and
  `str` ordering.
- `Grouping`: an insertion-ordered `dict` of lists.
- `Ssml` and `Glob`: the `<speak>` envelope and `*` patterns.
- `Menus`: the answer rule and the re-prompt loop.
- `PollyService` and `PollyDemo`: the interactive demo. The `PollyDemo` class
  holds the catalogue as a field.
- `SamplePlanner`, `GenerateSamples` and `GetSampleAudio`: the sample
  generators.
- `Transcript`, `TranslateSpeechApp` and `TranscribeMic`: the streaming
  scripts.

The cloud services, the console and the file system are parameters of the
model:

- The `describe_voices` answer is a list of voice descriptions.
- The operator's typed answers are a list of lines.
- The sample texts, the directory listing and the file contents are inputs.
- The translation and speech services are functions.
- The transcription results and captured microphone blocks are finite
  sequences.

## Model

| member | source | states |
|---|---|---|
| PollyDemo.PollyDemo.LoadVoices | polly-interactive-demo/polly_demo.py:43-66 | A failed `describe_voices` changes nothing and returns false. Otherwise the catalogue becomes the old one with every response voice appended, in response order, under its language name, and the result is true. The catalogue stays duplicate-free in its keys with no empty language. |
| PollyDemo.LoadedContents | polly-interactive-demo/polly_demo.py:49-60 | After loading, each language holds its old voices followed by the response voices of that language, in order. Existing languages keep their order. A language is present exactly when it was before or some response voice names it. No language is empty. |
| PollyDemo.LoadTwiceDuplicates | polly-interactive-demo/polly_demo.py:49-60 | Loading the same response twice stores every voice twice under its language. |
| PollyDemo.LoadedKeys | polly-interactive-demo/polly_demo.py:49-60 | After loading, the languages are the old ones in their order, followed by each new language name in the order the response first mentions it. |
| PollyDemo.VoicesOfLanguagePairs | polly-interactive-demo/polly_demo.py:49-60 | The records loaded under a language are exactly the response voices with that language name, in response order. |
| PollyDemo.VoicesOfLanguageNonEmpty | polly-interactive-demo/polly_demo.py:51-52 | A language gets a non-empty list exactly when some response voice names it. |
| PollyDemo.Info | polly-interactive-demo/polly_demo.py:54-60 | The stored record keeps the voice's Id, SupportedEngines and LanguageCode. |
| PollyDemo.PollyDemo.GetAvailableEngines | polly-interactive-demo/polly_demo.py:68-74 | The engine list is strictly sorted, so it has no duplicates. An engine is in it exactly when some loaded voice supports it. |
| PollyDemo.CollectEngines | polly-interactive-demo/polly_demo.py:70-73 | The nested loop collects the engines of all voices of all languages. |
| PollyDemo.AddEngines | polly-interactive-demo/polly_demo.py:72-73 | The inner loop adds the engines of one language's voices to the set. |
| PollyDemo.EnginesOverIff | polly-interactive-demo/polly_demo.py:70-73 | An engine is collected over some languages exactly when a voice of one of them lists it. |
| PollyDemo.EnginesOfIff | polly-interactive-demo/polly_demo.py:72-73 | An engine is collected from a voice list exactly when some voice in it lists the engine. |
| PollyDemo.ElementsIff | polly-interactive-demo/polly_demo.py:73 | `set.update` adds exactly the elements of the list. |
| PollyDemo.SortedList | polly-interactive-demo/polly_demo.py:74 | `sorted(list(s))` is strictly increasing and holds exactly the elements of `s`. |
| PollyDemo.Least | polly-interactive-demo/polly_demo.py:74 | The chosen string is in the set and below every other element. |
| PollyDemo.PollyDemo.GetVoicesForEngine | polly-interactive-demo/polly_demo.py:105-112 | Languages keep their original order, and exactly those with a voice supporting the engine are kept. Each keeps the in-order sub-list of its voices that support it. No language is empty. |
| PollyDemo.ForEngineShape | polly-interactive-demo/polly_demo.py:105-112 | For the filtered catalogue: the key order is the filtered original order; no language is empty; a language is kept exactly when some voice supports the engine; each list is the filtered original list; every kept voice lists the engine. |
| PollyDemo.ForEngineGet | polly-interactive-demo/polly_demo.py:108-111 | Under every visited language, the filtered catalogue holds the voices that support the engine, and nothing under any other name. |
| PollyDemo.ForEngineKeys | polly-interactive-demo/polly_demo.py:108-111 | For distinct keys, the filtered key order is the original order restricted to languages with a supporting voice. |
| PollyDemo.ForEngineNoEmpty | polly-interactive-demo/polly_demo.py:110-111 | The filtered catalogue never stores an empty list. |
| PollyDemo.SupportingVoices | polly-interactive-demo/polly_demo.py:109 | Every voice the comprehension keeps is one of the language's voices and lists the engine. |
| PollyDemo.SupportingVoicesKeeps | polly-interactive-demo/polly_demo.py:109 | Every voice that lists the engine is kept. |
| PollyDemo.PollyDemo.SelectEngine | polly-interactive-demo/polly_demo.py:76-103 | The menu is the sorted engine list. A chosen engine is the menu entry whose number was the last answer, so some loaded voice supports it. The quit result means the last answer stripped to `q` or `Q`. Every earlier answer, and every answer when input runs out, asked again; running out of answers means all of them were used. |
| PollyDemo.PollyDemo.SelectLanguageAndVoice | polly-interactive-demo/polly_demo.py:114-164 | The language menu lists the catalogue languages with a voice supporting the engine, in catalogue order. The voice menu lists that language's supporting voices. The chosen language is the language-menu entry picked by answer `usedLang`. The chosen voice is the voice-menu entry picked by the last answer. Every other answer of either menu asked again. So the voice is stored under the language and supports the engine. With no supporting voice at all, the result is back and nothing is asked. Otherwise back comes only from a `b`/`B` answer, to the language menu or after the language answer. Back from the language menu ends the selection. Running out of answers in either menu uses them all. |
| PollyDemo.LanguageAndVoiceMenus | polly-interactive-demo/polly_demo.py:118-164 | The language menu over the filtered catalogue runs first, then the voice menu of the chosen language over the answers after it. The chosen language is the entry picked by answer `usedLang`. The chosen voice is the entry picked by the last answer. Every other answer of either menu asked again. An empty catalogue returns back without asking. Back comes from a `b`/`B` answer. Running out of answers in either menu uses them all. |
| Menus.ParseChoice | polly-interactive-demo/polly_demo.py:93-103 | A menu answer only selects an entry index below the menu length. It only cancels when the stripped answer is the sentinel letter in either case. |
| Menus.CancelIff | polly-interactive-demo/polly_demo.py:93-95 | For letter sentinels, an answer cancels exactly when, once stripped, it is the lower- or upper-case letter. |
| Menus.LabelSelects | polly-interactive-demo/polly_demo.py:97-99 | Typing the number `k` shown before an entry selects entry `k - 1`. |
| Menus.OutOfRangeRetries | polly-interactive-demo/polly_demo.py:98-101 | The number 0 and numbers above the menu length ask again. |
| Menus.Prompt | polly-interactive-demo/polly_demo.py:91-103 | The re-prompt loop stops at the first answer that selects or cancels, and every earlier answer asked again. When no answer decides, every answer is used. |
| Menus.Choose | polly-interactive-demo/polly_demo.py:130-143 | A chosen item is the entry the deciding answer selects. Back comes from a sentinel answer. End of input means every answer asked again. |
| PollyDemo.MatchingSamples | polly-interactive-demo/polly_demo.py:192-195 | The matching samples are the in-order sub-list of the samples whose names match the language. |
| PollyDemo.MatchingSampleIff | polly-interactive-demo/polly_demo.py:194 | A sample is offered exactly when the lower-cased language contains the lower-cased sample name, or the reverse. |
| PollyDemo.Preview | polly-interactive-demo/polly_demo.py:199 | Content up to the limit is shown unchanged. Longer content shows its first `limit` characters followed by `...`. A preview is never longer than `limit + 3`. |
| PollyDemo.PreviewsShareOpening | polly-interactive-demo/polly_demo.py:199-215 | With the limits 50 (sample line) and 100 (sample sub-menu), a sample line is at most 53 characters and a sub-menu entry at most 103; a text longer than 50 shows its first 50 characters then `...` on its sample line, and the same 50 characters open its sub-menu entry. |
| PollyDemo.ChooseSample | polly-interactive-demo/polly_demo.py:208-227 | A single matching sample is taken without asking. With several, the chosen sample is the entry picked by the last answer, and every earlier answer asked again. The menu has no way back, and running out of answers uses them all. |
| PollyDemo.TextMenu | polly-interactive-demo/polly_demo.py:203-235 | `TextAnswers`: every option answer before the deciding one did nothing. Such an answer is not `b`, not a `1` with samples, and a `2` only when the custom text after it was empty. `b` goes back. A `1` with samples takes the only sample, or the entry picked by the sample menu's last answer, with the sample answers before it asked again. A `2` takes the next answer, stripped and non-empty. Running out of answers uses them all. |
| PollyDemo.OneThenTwoPicksSecond | polly-interactive-demo/polly_demo.py:207-224 | With two matching samples, the answers `1` then `2` can only take the second sample. |
| PollyDemo.SelectTextContent | polly-interactive-demo/polly_demo.py:184-235 | `TextAnswers` over the samples whose names match the language. A chosen text is a matching sample's content or the non-empty stripped custom text, and only the latter when no sample matches. Back comes from a `b`/`B` answer, and running out of answers uses them all. |
| Ssml.WrapIfNeeded | polly-interactive-demo/polly_demo.py:245-248 | The result always passes the `<speak>` test, and text that already passes it is unchanged. |
| Ssml.WrapIfNeededIdempotent | polly-interactive-demo/polly_demo.py:245-248 | Wrapping twice is wrapping once. |
| Ssml.WrapIfNeededAgreesWithEnvelope | polly-interactive-demo/polly_demo.py:245-248 | Unwrapped text gets exactly the envelope, and an envelope passes through unchanged. |
| Ssml.Envelope | polly-interactive-demo/polly_demo.py:246 | The envelope is 18 characters longer than the text. It starts with `<speak>` and ends with `</speak>`, and the text can be read back from its middle. |
| Ssml.EnvelopeIsWrapped | polly-interactive-demo/polly_demo.py:245-246 | An envelope always passes the stripped `<speak>` prefix test. |
| PollyDemo.SynthesisRequestFor | polly-interactive-demo/polly_demo.py:244-257 | The request carries the given voice, language code and engine, with mp3 output and SSML text. Its text always passes the `<speak>` test and is the input unchanged when that input was already wrapped. |
| PollyDemo.SynthesizeSpeech | polly-interactive-demo/polly_demo.py:239-278 | Audio is saved, under the temporary name in the temporary directory, exactly when the service returns a stream. The saved bytes are the stream. The text-too-long outcome is reported exactly for the `TextLengthExceededException` code. |
| PollyDemo.TempFileName | polly-interactive-demo/polly_demo.py:260 | The temporary name is `polly_demo_`, the voice id, `_`, the engine and `.mp3`, which can be read back by position. It always matches the cleanup pattern. |
| PollyDemo.CleanupMatchesExactly | polly-interactive-demo/polly_demo.py:354 | `polly_demo_*.mp3` matches exactly the names of at least 15 characters that start with `polly_demo_` and end with `.mp3`. |
| Glob.PrefixStarSuffixMatch | polly-interactive-demo/polly_demo.py:354 | A pattern made of a literal, one `*` and a literal matches exactly the long-enough names with that prefix and suffix. |
| Glob.StarLiteralMatch | polly-interactive-demo/polly_demo.py:354 | `*` followed by a literal matches exactly the names ending in the literal. |
| Glob.LiteralMatch | polly-interactive-demo/polly_demo.py:354 | A pattern without `*` matches only itself. |
| Strings.Strip | polly-interactive-demo/polly_demo.py:93 | The stripped answer neither starts nor ends with white space and is no longer than the input. |
| Strings.TrimStartDropsSpace | polly-interactive-demo/polly_demo.py:93 | Left-stripping keeps a suffix and drops only white space. |
| Strings.TrimEndDropsSpace | polly-interactive-demo/polly_demo.py:93 | Right-stripping keeps a prefix and drops only white space. |
| Strings.LowerIsIff | polly-interactive-demo/polly_demo.py:94 | The one-letter test is `lower()` equal to that letter. |
| Strings.ParseIntNatToString | polly-interactive-demo/polly_demo.py:97 | `int()` reads back every printed menu number. |
| Strings.DigitStringShape | polly-interactive-demo/polly_demo.py:97 | The digit strings `int()` accepts start and end with a digit and hold only digits and underscores. |
| Strings.LessTransitive | polly-interactive-demo/polly_demo.py:74 | String order is transitive. |
| Strings.LessTotal | polly-interactive-demo/polly_demo.py:74 | String order is total. |
| Strings.LessIrreflexive | polly-interactive-demo/polly_demo.py:74 | String order is irreflexive. |
| Grouping.Append | polly-interactive-demo/polly_demo.py:51-60 | Appending under a key adds one value at the end of that key's list. A key is created, last in the key order, only when absent. Other keys are untouched. |
| Grouping.AppendAllGet | polly-interactive-demo/polly_demo.py:49-60 | Appending pairs appends, under every key, exactly the values paired with it, in order. |
| Grouping.AppendAllDomain | polly-interactive-demo/polly_demo.py:51-52 | A key is present after appending exactly when it was before or some pair carries it. No list is empty. |
| Grouping.AppendAllKeepsKeys | polly-interactive-demo/polly_demo.py:51-52 | The old key order is a prefix of the new one. |
| Grouping.AppendAllKeys | polly-interactive-demo/polly_demo.py:51-52 | Appending pairs lists the old keys, then each new key at the place of its first pair (`WithNewKeys`). |
| Grouping.WithNewKeysMembers | polly-interactive-demo/polly_demo.py:51-52 | Adding new keys keeps the old keys as a prefix, and a key is listed exactly when it was already listed or some pair carries it. |
| Grouping.Put | polly-interactive-demo/polly_demo.py:111 | Storing a list under a key replaces only that key and adds it last when it is new. |
| SamplePlanner.DefineData | polly-sample-audio/generate_samples.py:59-82 | `data[engine]` is replaced by the plan built from the listed files and the voices. The entries of every other engine are unchanged. |
| SamplePlanner.EnginePlanGet | polly-sample-audio/generate_samples.py:68-82 | Under each language the plan holds the records of the matching voices, in response order, repeated once for each file that gave that language name. |
| SamplePlanner.EnginePlanKeys | polly-sample-audio/generate_samples.py:68-82 | The plan's languages come in the order define_data first stores a record for them, along the language-then-voice visit order. |
| SamplePlanner.EnginePlanDistinct | polly-sample-audio/generate_samples.py:68-82 | A language listed once holds exactly the matching records in response order. |
| SamplePlanner.EnginePlanDomain | polly-sample-audio/generate_samples.py:72-82 | A language is in the plan exactly when it was listed and some voice matches it. No language maps to an empty list. |
| SamplePlanner.AddLanguage | polly-sample-audio/generate_samples.py:69-82 | The inner loop appends the records of the matching voices under the language, in response order. Both the `get` branch and the new-list branch are that one append. |
| SamplePlanner.TruthyGetIsAppend | polly-sample-audio/generate_samples.py:72-82 | In a dictionary without empty lists, `vd.append` when `vd` is truthy, else `d[voice] = [...]`, is the same as a single append. |
| SamplePlanner.MatchingRefsIff | polly-sample-audio/generate_samples.py:70 | A voice's record is kept exactly when the engine is among its SupportedEngines and the language name occurs in its LanguageName. |
| SamplePlanner.LanguageNamesFrom | polly-sample-audio/generate_samples.py:62-65 | Each language name comes from a listed regular file with every occurrence of the extension removed, and every regular file gives one. |
| SamplePlanner.LanguageNames | polly-sample-audio/generate_samples.py:62-65 | There is at most one language name per listed entry. |
| SamplePlanner.RemoveAllLeading | polly-sample-audio/generate_samples.py:65 | The extension is removed at the front of a name too, not only as a suffix. |
| Strings.RemoveAllSuffix | polly-sample-audio/generate_samples.py:65 | A name whose only occurrence of the extension is its suffix loses just that suffix. |
| SamplePlanner.ReadFileToXml | polly-sample-audio/generate_samples.py:95-100 | The result is 18 characters longer than the file text, passes the `<speak>` test and holds the text in its middle. |
| SamplePlanner.ReadFileToXmlNotIdempotent | polly-sample-audio/generate_samples.py:100 | Wrapping again always nests a second envelope. For already-wrapped text the result differs from the interactive demo's conditional wrapping. |
| Ssml.EnvelopeNotIdempotent | polly-sample-audio/generate_samples.py:100 | The unconditional envelope never returns its input. |
| SamplePlanner.InputPath | polly-sample-audio/generate_samples.py:116 | The input path is the languages directory, `/`, the language name and `.txt`, whatever the extension setting. The name can be read back from it. |
| SamplePlanner.OutputPath | polly-sample-audio/generate_samples.py:118 | The output path lies under `{audio_dest}/{engine}/` and ends with `.` and the output format. |
| SamplePlanner.LangJobs | polly-sample-audio/generate_samples.py:115-131 | One job per record of a language, in list order. |
| SamplePlanner.AddLangJobs | polly-sample-audio/generate_samples.py:115-131 | The innermost loop appends the jobs of one language's records. |
| SamplePlanner.EngineJobs | polly-sample-audio/generate_samples.py:113-133 | For one engine the jobs follow the plan, languages in key order and records in list order. The printed count is the total of the plan's list lengths, which is the number of jobs. |
| SamplePlanner.PlanJobsCount | polly-sample-audio/generate_samples.py:113-133 | The number of jobs planned for an engine is the total number of records in `data[engine]`. |
| SamplePlanner.PlanJobsShape | polly-sample-audio/generate_samples.py:116-128 | Every job of an engine writes under `{audio_dest}/{engine}/`, reads under the languages directory and asks for that engine. |
| SamplePlanner.EngineCountsAt | polly-sample-audio/generate_samples.py:133 | The `i`-th count printed is the count of the `i`-th configured engine. |
| SamplePlanner.DefineAll | polly-sample-audio/generate_samples.py:106-109 | With `gen_data`, every configured engine gets its plan. Without it, nothing is defined. |
| SamplePlanner.Run | polly-sample-audio/generate_samples.py:103-133 | With `gen_data` (or no engines), the jobs of every engine are planned in order, each count being the total of that engine's plan. Without `gen_data`, the lookup of the first engine fails before any job. |
| SamplePlanner.RunEngines | polly-sample-audio/generate_samples.py:111-133 | Given the dictionary define_data built, the second engine loop plans, engine by engine, the jobs of each plan and prints each plan's total. With `gen_data` false and some engine listed, the first lookup fails before any job. |
| GenerateSamples.RequiredPath | polly-sample-audio/generate_samples.py:57 | The directory is the destination, `/` and the engine. |
| GenerateSamples.EnsureRequiredPath | polly-sample-audio/generate_samples.py:54-57 | One directory per engine of `ENGINES`, in order. |
| GenerateSamples.OutputInRequiredDir | polly-sample-audio/generate_samples.py:57 | Every output path lies in the directory made for its engine. |
| GenerateSamples.PremiumEngines | polly-sample-audio/generate_samples.py:43 | The premium list holds only configured engines that are `generative` or `long-form`. |
| GenerateSamples.CostWarningIff | polly-sample-audio/generate_samples.py:43-47 | The cost warning is printed exactly when some configured engine is premium. |
| GenerateSamples.DefaultPremiumEngines | polly-sample-audio/generate_samples.py:17 | With the four default engines, the premium list is `generative`, `long-form`, in that order. |
| GenerateSamples.RunDefaults | polly-sample-audio/generate_samples.py:136-154 | The entry point makes one directory per engine, `RequiredPath` of the destination and that engine, in engine order. With `gen_data` set, run always completes with every engine's jobs and counts. |
| GetSampleAudio.RequiredPath | polly-sample-audio/get-sample-audio.py:18 | The directory is plain concatenation of the destination and the engine, with no separator added. |
| GetSampleAudio.EnsureRequiredPath | polly-sample-audio/get-sample-audio.py:15-18 | One directory per engine of `ENGINES`, in order. |
| GetSampleAudio.DefaultOutputDoubledSlash | polly-sample-audio/get-sample-audio.py:9 | With the default `./samples/`, every output path starts `./samples//`. |
| GetSampleAudio.OutputDirFromRequired | polly-sample-audio/get-sample-audio.py:18 | The output directory is the created directory with an extra `/` between the destination and the engine. |
| GetSampleAudio.RunDefaults | polly-sample-audio/get-sample-audio.py:20-112 | This script's define_data, read_file_to_xml and run are the shared ones. Its entry point makes one directory per engine, `RequiredPath` of the destination and that engine, in engine order, and run always completes with every engine's jobs (the enveloped files, in plan order) and the per-engine counts. |
| TranslateSpeechApp.HandleTranscriptEvent | text-translate-speech/app.py:38-54 | The handler's trace, and whether it raised, are those of handling the results in order with the routing rule. |
| TranslateSpeechApp.FinalResultRoute | text-translate-speech/app.py:47-54 | A final result with an alternative gives exactly, in order: the end mark; the translation of its first transcript from `zh-CN` to `en-US`; the speech request for the translation; playing the audio. |
| TranslateSpeechApp.FinalActions | text-translate-speech/app.py:49-54 | The four actions of a final result and their arguments, in order. |
| TranslateSpeechApp.FinalDisplaysMark | text-translate-speech/app.py:49 | Of a final result's actions, only the end mark reaches the console. |
| TranslateSpeechApp.FailedIff | text-translate-speech/app.py:50 | The handler raises exactly when some final result has no alternatives. |
| TranslateSpeechApp.TranslatesFirstAlternatives | text-translate-speech/app.py:50-51 | Every translation is from SOURCE_LANGCODE to TARGET_LANGCODE, and of the first transcript of some final result. |
| TranslateSpeechApp.ResultTranslateCount | text-translate-speech/app.py:42-51 | One result asks for one translation when it is final with an alternative, and none otherwise. |
| TranslateSpeechApp.TranslateCount | text-translate-speech/app.py:41-51 | When the handler does not raise, there is one translation per final result. When it raises, there are fewer. |
| TranslateSpeechApp.PartialsOnlyDisplay | text-translate-speech/app.py:42-46 | Partial results never raise and never reach a service: they only clear and print, two actions per alternative. |
| Transcript.PartialActions | text-translate-speech/app.py:43-46 | For each alternative in order, one clear and then one print of its transcript. |
| Transcript.PartialActionsDisplayOnly | text-translate-speech/app.py:43-46 | A partial result only clears and prints, and what it prints is one of its transcripts. |
| Transcript.ShowPartial | text-translate-speech/app.py:43-46 | The inner loop appends the partial result's clear/print pairs to the trace. |
| Transcript.HandleAllConcat | text-translate-speech/app.py:40-41 | Results are handled strictly in order. If the first part of a batch does not raise, handling the batch is handling the first part, then the second. |
| Transcript.HandleAllConcatFailed | text-translate-speech/app.py:40-41 | Results after the one that raised are not handled. |
| Transcript.HandleAllFailedStays | text-translate-speech/app.py:40-41 | Once handling has raised, later results change nothing. |
| Transcript.HandleAllFailedIff | text-translate-speech/app.py:40-41 | Handling raises exactly when it reaches a result it raises on. |
| Transcript.WriteChunks | text-translate-speech/app.py:81-86 | One send per captured block, in capture order, carrying only the audio. It is followed by the end of the stream when, and only when, the microphone stream ends. The loop in text-speech-conversion/transcribe-mic.py:75-80 is the same. |
| Transcript.Sends | text-translate-speech/app.py:84-85 | The `i`-th send carries the `i`-th block's audio. |
| Transcript.SendsPrefix | text-translate-speech/app.py:84-85 | What has been sent after some blocks is a prefix of what is sent after more. |
| Transcript.EndStreamLast | text-translate-speech/app.py:86 | The end of the stream occurs once, only when the microphone stream ends, and only after the last send. |
| Transcript.SendsIgnoreStatus | text-translate-speech/app.py:84 | Blocks that differ only in their status are forwarded alike. |
| TranscribeMic.HandleTranscriptEvent | text-speech-conversion/transcribe-mic.py:36-47 | The handler's trace is the display of the results in order. |
| TranscribeMic.DisplayShape | text-speech-conversion/transcribe-mic.py:39-47 | The trace has two actions per alternative of a partial result and one per final result. It only touches the console, and every printed text is a transcript of a partial result. |
| TranscribeMic.EndMarkCount | text-speech-conversion/transcribe-mic.py:45-47 | There is one end mark per final result. |
| TranscribeMic.ResultEndMarks | text-speech-conversion/transcribe-mic.py:40-47 | One result shows an end mark exactly when it is final. |
| TranscribeMic.DisplayIsAppWithoutServices | text-speech-conversion/transcribe-mic.py:38-47 | When the translating handler does not raise, its console actions are exactly this script's trace. |

## Left out

- Cloud calls: `describe_voices`, `synthesize_speech`, `translate_text`, `start_stream_transcription`, `send_audio_event` and `end_stream`. Their answers are inputs or actions of the model, so service failures appear only as the `None` answer and the `ServiceReply` cases.
- The scripts' region, sample-rate and chunk-size settings only configure the service clients and the microphone, so they are not part of the model.
- `initialize_client` (polly-interactive-demo/polly_demo.py:29-41) is left out: it depends on credentials and the region.
- `PollyDemo.run`, the main loop (polly-interactive-demo/polly_demo.py:359-423), is left out because it is console I/O. That covers its confirmation prompts, the summary text and the exit messages. The summary uses the same preview rule as `PollyDemo.Preview`, with limit 100.
- `play_audio` (polly-interactive-demo/polly_demo.py:280-349) is left out: pygame, the subprocess player chain and `os.startfile` are platform audio I/O. In the streaming script, playback is the abstract `Play` action.
- `get_sample_texts` (polly-interactive-demo/polly_demo.py:166-182) is left out because it is file I/O. The (name, content) samples it returns are an input of `PollyDemo.SelectTextContent`, so the stripping and the dropping of empty files are not modelled.
- File effects are not modelled: writes, `unlink`, `mkdir`, `listdir`, `isfile`. Only the names and paths built are.
- `PollyDemo.CleanupMatchesExactly` describes which names the cleanup glob deletes, so the directory scan and its swallowed errors are left out.
- Console printing and the emoji texts are left out because they are output only. So is the info table of `print_engine_info`; only its premium-engine rule is modelled.
- The asyncio machinery is left out because it exists only for concurrency: `mic_stream`'s queue hand-off and `asyncio.gather`. Blocks and results are finite sequences. The real microphone source never ends, so the scripts never reach `end_stream`; that is the `sourceEnds == false` case.
- `text-speech-conversion/polly-play.py` is not part of this model because it only makes a single service call and plays the file.
- `text-translate-speech/modules/polly.py` and `modules/translate.py` are not part of this model because they are single-call wrappers.
  - app.py imports `polly_read` (text-translate-speech/app.py:8), but `modules/polly.py` defines only `polly_play`.
  - So `Synthesize` and the speech function are abstract.
- Strings.Lower: `lower()` is modelled for ASCII letters only. Python's full Unicode case mapping is not modelled.
- Strings.ParseInt: `int()` is modelled for ASCII digits only. Non-ASCII decimal digits, which Python also accepts, are not modelled.
- Windows file-name case-insensitivity in `Path.glob` is not modelled.
- `SamplePlanner.DefineData` returns the new dictionary rather than mutating the caller's in place. The only caller, `run`, uses its own local dictionary, so no aliasing is lost.
- `describe_voices` and `listdir` are assumed to answer the same for every engine within one run. Each is one input.
- The `data_file_path` and `engine` entries of `inputs` are never read by the scripts, so they are not in `Inputs`.
- SamplePlanner.Run: a failing `synthesize_speech` call is not modelled. Neither script's `synthesize_speech_mp3` catches it (polly-sample-audio/generate_samples.py:85-92, polly-sample-audio/get-sample-audio.py:46-53), so in the scripts it ends `run` before the later jobs and before that engine's count is printed. The model's `jobs` are the requests run makes when every call succeeds.
- SamplePlanner.Run: the job's text is `read_file_to_xml` applied to a `contents` function from path to file text. A missing file, where Python raises, is not modelled.
- Transcript.WriteChunks: a block's status is carried in `Block` and dropped, as in the scripts. What the microphone callback reports is not interpreted.
- Transcript.ClearScreen stands for the intended effect of `os.system('cls')` (text-translate-speech/app.py:45, text-speech-conversion/transcribe-mic.py:43). That command clears the console only on Windows; elsewhere the shell reports an unknown command and nothing is cleared, which is not modelled.
- `PollyDemo.PollyDemo.SelectEngine` and the other menus model the end of the operator's input (`EOFError`) as `EndOfInput`. A `KeyboardInterrupt` is not modelled.
