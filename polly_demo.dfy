/** One entry of the `Voices` list that the speech service's describe_voices
    call returns. The call itself is not modelled: its answer is an input. */
module PollyService {

  datatype VoiceDescription = VoiceDescription(
    id: string,
    name: string,
    gender: string,
    languageCode: string,
    languageName: string,
    supportedEngines: seq<string>)
}

/** The interactive text-to-speech demo: the voice catalogue grouped by
    language, the engine list, the per-engine filtered catalogue, the menu
    loops, sample-text matching and previews, the synthesis request and the
    name of the temporary audio file that cleanup later deletes. */
module PollyDemo {
  import opened Wrappers
  import opened Seqs
  import opened Strings
  import G = Grouping
  import opened Menus
  import opened PollyService
  import Ssml
  import Glob

  /** The record load_voices keeps for a voice. */
  datatype VoiceInfo = VoiceInfo(
    id: string,
    name: string,
    gender: string,
    engines: seq<string>,
    languageCode: string)

  function Info(v: VoiceDescription): (info: VoiceInfo)
    ensures info.id == v.id && info.engines == v.supportedEngines
    ensures info.languageCode == v.languageCode
  {
    VoiceInfo(v.id, v.name, v.gender, v.supportedEngines, v.languageCode)
  }

  // ---------------------------------------------------------------------
  // Loading the catalogue

  /** The (language name, record) pairs load_voices appends, in response order. */
  function LoadPairs(response: seq<VoiceDescription>): (ps: seq<(string, VoiceInfo)>)
    ensures |ps| == |response|
    decreases |response|
  {
    if response == [] then []
    else
      var v := response[|response| - 1];
      LoadPairs(response[..|response| - 1]) + [(v.languageName, Info(v))]
  }

  /** The records of the response voices whose language name is `lang`, in
      response order. */
  function VoicesOfLanguage(response: seq<VoiceDescription>, lang: string): seq<VoiceInfo>
    decreases |response|
  {
    if response == [] then []
    else
      var v := response[|response| - 1];
      VoicesOfLanguage(response[..|response| - 1], lang)
        + (if v.languageName == lang then [Info(v)] else [])
  }

  lemma {:induction false} VoicesOfLanguagePairs(response: seq<VoiceDescription>, lang: string)
    ensures G.ValuesFor(LoadPairs(response), lang) == VoicesOfLanguage(response, lang)
    decreases |response|
  {
    if response != [] {
      var init := response[..|response| - 1];
      VoicesOfLanguagePairs(init, lang);
      var ps := LoadPairs(response);
      assert ps[..|ps| - 1] == LoadPairs(init);
    }
  }

  /** Some voice of `lang` is kept exactly when the response names `lang`. */
  lemma {:induction false} VoicesOfLanguageNonEmpty(response: seq<VoiceDescription>, lang: string)
    ensures |VoicesOfLanguage(response, lang)| > 0 <==>
      exists i :: 0 <= i < |response| && response[i].languageName == lang
    decreases |response|
  {
    if response != [] {
      var init := response[..|response| - 1];
      VoicesOfLanguageNonEmpty(init, lang);
      if exists i :: 0 <= i < |init| && init[i].languageName == lang {
        var i :| 0 <= i < |init| && init[i].languageName == lang;
        assert response[i].languageName == lang;
      }
      if exists i :: 0 <= i < |response| && response[i].languageName == lang {
        var i :| 0 <= i < |response| && response[i].languageName == lang;
        if i < |init| {
          assert init[i].languageName == lang;
        }
      }
    }
  }

  lemma LoadStep(g: G.Groups<VoiceInfo>, voices: seq<VoiceDescription>, i: nat)
    requires G.Valid(g) && i < |voices|
    ensures G.AppendAll(g, LoadPairs(voices[..i + 1]))
         == G.Append(G.AppendAll(g, LoadPairs(voices[..i])), voices[i].languageName, Info(voices[i]))
  {
    assert voices[..i + 1][..i] == voices[..i];
    var ps := LoadPairs(voices[..i + 1]);
    assert ps[..|ps| - 1] == LoadPairs(voices[..i]);
  }

  /** The catalogue load_voices leaves behind, starting from `g`. */
  function Loaded(g: G.Groups<VoiceInfo>, response: seq<VoiceDescription>): (r: G.Groups<VoiceInfo>)
    requires G.Valid(g)
    ensures G.Valid(r)
  {
    G.AppendAll(g, LoadPairs(response))
  }

  /** Loading appends every response voice, in response order, to the list of
      its language name; existing entries and the order of existing languages
      are kept, and a language is created only when some voice names it. */
  lemma LoadedContents(g: G.Groups<VoiceInfo>, response: seq<VoiceDescription>, lang: string)
    requires G.Valid(g) && G.NoEmptyGroup(g)
    ensures G.Get(Loaded(g, response), lang) == G.Get(g, lang) + VoicesOfLanguage(response, lang)
    ensures g.keys <= Loaded(g, response).keys
    ensures G.NoEmptyGroup(Loaded(g, response))
    ensures lang in Loaded(g, response).entries <==>
      lang in g.entries || exists i :: 0 <= i < |response| && response[i].languageName == lang
  {
    G.AppendAllGet(g, LoadPairs(response), lang);
    G.AppendAllKeepsKeys(g, LoadPairs(response));
    G.AppendAllDomain(g, LoadPairs(response), lang);
    VoicesOfLanguagePairs(response, lang);
    VoicesOfLanguageNonEmpty(response, lang);
  }

  /** The language names of the response voices, in response order. */
  function ResponseLanguages(response: seq<VoiceDescription>): (names: seq<string>)
    ensures |names| == |response| && forall i :: 0 <= i < |response| ==> names[i] == response[i].languageName
  {
    seq(|response|, i requires 0 <= i < |response| => response[i].languageName)
  }

  lemma {:induction false} LoadPairsKeys(response: seq<VoiceDescription>)
    ensures G.KeysOf(LoadPairs(response)) == ResponseLanguages(response)
    decreases |response|
  {
    if response != [] {
      var init := response[..|response| - 1];
      LoadPairsKeys(init);
      var ps := LoadPairs(response);
      assert ps[..|ps| - 1] == LoadPairs(init);
      assert G.KeysOf(ps)[..|ps| - 1] == G.KeysOf(LoadPairs(init));
    }
  }

  /** The languages the menu lists after loading: the old ones, then each
      new language name in the order the response first mentions it. */
  lemma LoadedKeys(g: G.Groups<VoiceInfo>, response: seq<VoiceDescription>)
    requires G.Valid(g)
    ensures Loaded(g, response).keys == G.WithNewKeys(g.keys, ResponseLanguages(response))
  {
    G.AppendAllKeys(g, LoadPairs(response));
    LoadPairsKeys(response);
  }

  /** Loading the same response twice keeps both copies of every voice. */
  lemma LoadTwiceDuplicates(g: G.Groups<VoiceInfo>, response: seq<VoiceDescription>, lang: string)
    requires G.Valid(g) && G.NoEmptyGroup(g)
    ensures G.Get(Loaded(Loaded(g, response), response), lang)
         == G.Get(g, lang) + VoicesOfLanguage(response, lang) + VoicesOfLanguage(response, lang)
  {
    LoadedContents(g, response, lang);
    LoadedContents(Loaded(g, response), response, lang);
  }

  // ---------------------------------------------------------------------
  // Engines

  /** Some voice of the catalogue lists engine `e`. */
  ghost predicate Offers(g: G.Groups<VoiceInfo>, e: string) {
    exists k, v :: k in g.entries && v in g.entries[k] && e in v.engines
  }

  /** The elements of a list, as `set.update` adds them. */
  function Elements(xs: seq<string>): set<string>
    decreases |xs|
  {
    if xs == [] then {} else Elements(xs[..|xs| - 1]) + {xs[|xs| - 1]}
  }

  lemma {:induction false} ElementsIff(xs: seq<string>, x: string)
    ensures x in Elements(xs) <==> x in xs
    decreases |xs|
  {
    if xs != [] {
      ElementsIff(xs[..|xs| - 1], x);
      assert xs == xs[..|xs| - 1] + [xs[|xs| - 1]];
    }
  }

  /** The engines listed by the voices `vs`. */
  function EnginesOf(vs: seq<VoiceInfo>): set<string>
    decreases |vs|
  {
    if vs == [] then {}
    else EnginesOf(vs[..|vs| - 1]) + Elements(vs[|vs| - 1].engines)
  }

  lemma EnginesOfStep(vs: seq<VoiceInfo>, j: nat)
    requires j < |vs|
    ensures EnginesOf(vs[..j + 1]) == EnginesOf(vs[..j]) + Elements(vs[j].engines)
  {
    assert vs[..j + 1][..j] == vs[..j];
  }

  /** The engines listed by the voices stored under `keys`. */
  function EnginesOver(g: G.Groups<VoiceInfo>, keys: seq<string>): set<string>
    decreases |keys|
  {
    if keys == [] then {}
    else EnginesOver(g, keys[..|keys| - 1]) + EnginesOf(G.Get(g, keys[|keys| - 1]))
  }

  lemma EnginesOverStep(g: G.Groups<VoiceInfo>, keys: seq<string>, i: nat)
    requires i < |keys| && keys[i] in g.entries
    ensures EnginesOver(g, keys[..i + 1]) == EnginesOver(g, keys[..i]) + EnginesOf(g.entries[keys[i]])
  {
    assert keys[..i + 1][..i] == keys[..i];
  }

  lemma {:induction false} EnginesOfIff(vs: seq<VoiceInfo>, e: string)
    ensures e in EnginesOf(vs) <==> exists v :: v in vs && e in v.engines
    decreases |vs|
  {
    if vs != [] {
      var init := vs[..|vs| - 1];
      EnginesOfIff(init, e);
      ElementsIff(vs[|vs| - 1].engines, e);
      if exists v :: v in vs && e in v.engines {
        var v :| v in vs && e in v.engines;
        if v != vs[|vs| - 1] {
          assert v in init;
        }
      }
    }
  }

  lemma {:induction false} EnginesOverIff(g: G.Groups<VoiceInfo>, keys: seq<string>, e: string)
    ensures e in EnginesOver(g, keys) <==>
      exists k, v :: k in keys && k in g.entries && v in g.entries[k] && e in v.engines
    decreases |keys|
  {
    if keys != [] {
      var init := keys[..|keys| - 1];
      var last := keys[|keys| - 1];
      EnginesOverIff(g, init, e);
      EnginesOfIff(G.Get(g, last), e);
      if exists k, v :: k in keys && k in g.entries && v in g.entries[k] && e in v.engines {
        var k, v :| k in keys && k in g.entries && v in g.entries[k] && e in v.engines;
        if k != last {
          assert k in init;
        }
      }
    }
  }

  /** The nested loop of get_available_engines: `engines.update(...)` for
      every voice of every language, in key order. */
  method CollectEngines(g: G.Groups<VoiceInfo>) returns (found: set<string>)
    requires G.Valid(g)
    ensures found == EnginesOver(g, g.keys)
  {
    found := {};
    var keys := g.keys;
    for i := 0 to |keys|
      invariant found == EnginesOver(g, keys[..i])
    {
      found := AddEngines(found, g.entries[keys[i]]);
      EnginesOverStep(g, keys, i);
    }
    assert keys[..|keys|] == keys;
  }

  /** The inner loop: the engines of `voices` added to `found`. */
  method AddEngines(found: set<string>, voices: seq<VoiceInfo>) returns (r: set<string>)
    ensures r == found + EnginesOf(voices)
  {
    r := found;
    for j := 0 to |voices|
      invariant r == found + EnginesOf(voices[..j])
    {
      EnginesOfStep(voices, j);
      r := r + Elements(voices[j].engines);
    }
    assert voices[..|voices|] == voices;
  }

  /** The set of engines, as `sorted(list(engines))` returns it. */
  method SortedList(s: set<string>) returns (r: seq<string>)
    ensures StrictlySorted(r)
    ensures forall x :: x in r <==> x in s
  {
    r := [];
    var rest := s;
    while rest != {}
      invariant rest <= s
      invariant forall x :: x in s <==> x in r || x in rest
      invariant StrictlySorted(r)
      invariant forall x, y :: x in r && y in rest ==> Less(x, y)
      decreases |rest|
    {
      var m := Least(rest);
      r := r + [m];
      rest := rest - {m};
    }
  }

  /** The least string of a non-empty set. */
  method Least(s: set<string>) returns (m: string)
    requires s != {}
    ensures m in s
    ensures forall x :: x in s && x != m ==> Less(m, x)
  {
    m :| m in s;
    var seen := {m};
    while seen != s
      invariant m in seen && seen <= s
      invariant forall y :: y in seen && y != m ==> Less(m, y)
      decreases |s - seen|
    {
      var x :| x in s - seen;
      if Less(x, m) {
        forall y | y in seen && y != m
          ensures Less(x, y)
        {
          LessTransitive(x, m, y);
        }
        m := x;
      } else {
        LessTotal(x, m);
      }
      seen := seen + {x};
    }
  }

  // ---------------------------------------------------------------------
  // The catalogue filtered by engine

  /** `[v for v in voices if engine in v['engines']]`. */
  function SupportingVoices(vs: seq<VoiceInfo>, engine: string): (r: seq<VoiceInfo>)
    ensures forall v :: v in r ==> v in vs && engine in v.engines
  {
    Filter(vs, (v: VoiceInfo) => engine in v.engines)
  }

  /** Every voice that lists the engine is kept. */
  lemma SupportingVoicesKeeps(vs: seq<VoiceInfo>, engine: string, i: nat)
    requires i < |vs| && engine in vs[i].engines
    ensures vs[i] in SupportingVoices(vs, engine)
  {
    FilterKeeps(vs, (v: VoiceInfo) => engine in v.engines, i);
  }

  /** The test get_voices_for_engine applies to a language: some of its
      voices support the engine. */
  function KeepsLanguage(g: G.Groups<VoiceInfo>, engine: string): string -> bool {
    k => |SupportingVoices(G.Get(g, k), engine)| > 0
  }

  /** The filtered catalogue built over `keys`, in key order. */
  function ForEngine(g: G.Groups<VoiceInfo>, keys: seq<string>, engine: string): (r: G.Groups<VoiceInfo>)
    ensures G.Valid(r)
    decreases |keys|
  {
    if keys == [] then G.Empty()
    else
      var r := ForEngine(g, keys[..|keys| - 1], engine);
      var lv := SupportingVoices(G.Get(g, keys[|keys| - 1]), engine);
      if |lv| > 0 then G.Put(r, keys[|keys| - 1], lv) else r
  }

  lemma ForEngineStep(g: G.Groups<VoiceInfo>, keys: seq<string>, i: nat, engine: string)
    requires i < |keys|
    ensures ForEngine(g, keys[..i + 1], engine)
         == var lv := SupportingVoices(G.Get(g, keys[i]), engine);
            if |lv| > 0 then G.Put(ForEngine(g, keys[..i], engine), keys[i], lv)
            else ForEngine(g, keys[..i], engine)
  {
    assert keys[..i + 1][..i] == keys[..i];
  }

  lemma {:induction false} ForEngineGet(g: G.Groups<VoiceInfo>, keys: seq<string>, engine: string, k: string)
    ensures G.Get(ForEngine(g, keys, engine), k) == if k in keys then SupportingVoices(G.Get(g, k), engine) else []
    decreases |keys|
  {
    if keys != [] {
      var init := keys[..|keys| - 1];
      var last := keys[|keys| - 1];
      ForEngineGet(g, init, engine, k);
      var lv := SupportingVoices(G.Get(g, last), engine);
      if k == last && |lv| == 0 {
        assert lv == [];
      }
    }
  }

  lemma {:induction false} ForEngineNoEmpty(g: G.Groups<VoiceInfo>, keys: seq<string>, engine: string)
    ensures G.NoEmptyGroup(ForEngine(g, keys, engine))
    decreases |keys|
  {
    if keys != [] {
      var init := keys[..|keys| - 1];
      var last := keys[|keys| - 1];
      ForEngineNoEmpty(g, init, engine);
      var r0 := ForEngine(g, init, engine);
      var r := ForEngine(g, keys, engine);
      forall k | k in r.entries
        ensures |r.entries[k]| > 0
      {
        assert G.Get(r, k) == r.entries[k];
        if k != last {
          assert k in r0.keys;
          assert G.Get(r0, k) == r0.entries[k];
        }
      }
    }
  }

  lemma {:induction false} ForEngineKeys(g: G.Groups<VoiceInfo>, keys: seq<string>, engine: string)
    requires forall i, j :: 0 <= i < j < |keys| ==> keys[i] != keys[j]
    ensures ForEngine(g, keys, engine).keys == Filter(keys, KeepsLanguage(g, engine))
    decreases |keys|
  {
    if keys != [] {
      var init := keys[..|keys| - 1];
      var last := keys[|keys| - 1];
      ForEngineKeys(g, init, engine);
      var r0 := ForEngine(g, init, engine);
      assert last !in init;
      assert last !in r0.entries;
    }
  }

  /** The filtered catalogue: it keeps, in their original order, exactly the
      languages with at least one voice supporting the engine; each keeps
      the in-order sub-list of its voices that support it; no language is
      left empty, and every voice in it lists the engine. */
  lemma ForEngineShape(g: G.Groups<VoiceInfo>, engine: string)
    requires G.Valid(g)
    ensures ForEngine(g, g.keys, engine).keys == Filter(g.keys, KeepsLanguage(g, engine))
    ensures G.NoEmptyGroup(ForEngine(g, g.keys, engine))
    ensures forall k :: k in ForEngine(g, g.keys, engine).entries <==>
      k in g.entries && |SupportingVoices(g.entries[k], engine)| > 0
    ensures forall k :: k in ForEngine(g, g.keys, engine).entries ==>
      k in g.entries && ForEngine(g, g.keys, engine).entries[k] == SupportingVoices(g.entries[k], engine)
    ensures forall k, v :: k in ForEngine(g, g.keys, engine).entries && v in ForEngine(g, g.keys, engine).entries[k] ==>
      engine in v.engines
  {
    ForEngineKeys(g, g.keys, engine);
    ForEngineNoEmpty(g, g.keys, engine);
    var r := ForEngine(g, g.keys, engine);
    forall k | k in r.entries
      ensures k in g.entries && r.entries[k] == SupportingVoices(g.entries[k], engine)
    {
      ForEngineGet(g, g.keys, engine, k);
      assert G.Get(r, k) == r.entries[k];
    }
    forall k | k in g.entries && |SupportingVoices(g.entries[k], engine)| > 0
      ensures k in r.entries
    {
      ForEngineGet(g, g.keys, engine, k);
    }
  }

  // ---------------------------------------------------------------------
  // The demo object

  class PollyDemo {
    /** `voices_data`: language name to the records of its voices. */
    var voicesData: G.Groups<VoiceInfo>

    ghost predicate Valid()
      reads this
    {
      G.Valid(voicesData) && G.NoEmptyGroup(voicesData)
    }

    constructor ()
      ensures Valid() && voicesData == G.Empty()
    {
      voicesData := G.Empty();
    }

    /** load_voices over the describe_voices answer (`None` when the call
        fails, in which case nothing changes and the result is false). */
    method LoadVoices(response: Option<seq<VoiceDescription>>) returns (ok: bool)
      requires Valid()
      modifies this
      ensures Valid()
      ensures ok <==> response.Some?
      ensures voicesData == if response.Some? then Loaded(old(voicesData), response.value) else old(voicesData)
    {
      if response.None? {
        return false;
      }
      var voices := response.value;
      ghost var start := voicesData;
      for i := 0 to |voices|
        invariant G.Valid(voicesData) && G.NoEmptyGroup(voicesData)
        invariant voicesData == G.AppendAll(start, LoadPairs(voices[..i]))
      {
        LoadStep(start, voices, i);
        voicesData := G.Append(voicesData, voices[i].languageName, Info(voices[i]));
      }
      assert voices[..|voices|] == voices;
      return true;
    }

    /** get_available_engines: every engine some loaded voice supports,
        each once, in increasing order. */
    method GetAvailableEngines() returns (engines: seq<string>)
      requires Valid()
      ensures StrictlySorted(engines)
      ensures forall e :: e in engines <==> Offers(voicesData, e)
    {
      var found := CollectEngines(voicesData);
      engines := SortedList(found);
      forall e
        ensures e in engines <==> Offers(voicesData, e)
      {
        EnginesOverIff(voicesData, voicesData.keys, e);
      }
    }

    /** get_voices_for_engine. */
    method GetVoicesForEngine(engine: string) returns (filtered: G.Groups<VoiceInfo>)
      requires Valid()
      ensures filtered == ForEngine(voicesData, voicesData.keys, engine)
      ensures G.Valid(filtered) && G.NoEmptyGroup(filtered)
      ensures filtered.keys == Filter(voicesData.keys, KeepsLanguage(voicesData, engine))
      ensures forall k :: k in filtered.entries ==>
        k in voicesData.entries && filtered.entries[k] == SupportingVoices(voicesData.entries[k], engine)
      ensures forall k :: k in voicesData.entries && |SupportingVoices(voicesData.entries[k], engine)| > 0 ==>
        k in filtered.entries
    {
      filtered := G.Empty();
      var data := voicesData;
      var keys := data.keys;
      for i := 0 to |keys|
        invariant G.Valid(filtered)
        invariant filtered == ForEngine(data, keys[..i], engine)
      {
        ForEngineStep(data, keys, i, engine);
        var langVoices := SupportingVoices(data.entries[keys[i]], engine);
        if |langVoices| > 0 {
          filtered := G.Put(filtered, keys[i], langVoices);
        }
      }
      assert keys[..|keys|] == keys;
      ForEngineShape(data, engine);
    }

    /** select_engine over the operator's answers: the chosen engine is
        entry i of the sorted engine menu for the answer that reads i + 1,
        and it is always an engine some voice supports; 'q' or 'Q' quits. */
    method SelectEngine(lines: seq<string>) returns (r: Outcome<string>, used: nat, ghost menu: seq<string>)
      requires Valid()
      ensures used <= |lines|
      ensures StrictlySorted(menu) && forall e :: e in menu <==> Offers(voicesData, e)
      ensures r.Chosen? ==> Offers(voicesData, r.value)
      ensures r.Chosen? ==> 0 < used
      ensures r.Chosen? ==> exists i :: 0 <= i < |menu| && menu[i] == r.value && ParseChoice(lines[used - 1], |menu|, Some('q')) == Select(i)
      ensures r == Back ==> 0 < used && LowerIs(Strip(lines[used - 1]), 'q')
      ensures r == EndOfInput ==> used == |lines|
      ensures forall j {:trigger ParseChoice(lines[j], |menu|, Some('q'))} :: 0 <= j < used && (j + 1 < used || r == EndOfInput) ==>
        ParseChoice(lines[j], |menu|, Some('q')) == Retry
    {
      var engines := GetAvailableEngines();
      menu := engines;
      r, used := Choose(engines, lines, Some('q'));
    }

    /** The language menu select_language_and_voice shows for `engine`:
        the catalogue's languages with some voice supporting it, in
        catalogue order. */
    ghost function LanguageMenu(engine: string): seq<string>
      reads this
    {
      Filter(voicesData.keys, KeepsLanguage(voicesData, engine))
    }

    /** The voice menu it then shows for language `lang`. */
    ghost function VoiceMenu(lang: string, engine: string): seq<VoiceInfo>
      reads this
    {
      SupportingVoices(G.Get(voicesData, lang), engine)
    }

    /** select_language_and_voice over the operator's answers: the language
        menu and then the voice menu, each with 'b' to go back. The chosen
        language is the language-menu entry the answer numbered `usedLang`
        picks, the chosen voice the voice-menu entry the last answer picks,
        and every other answer of either menu asked again. */
    method SelectLanguageAndVoice(engine: string, lines: seq<string>)
      returns (r: Outcome<(string, VoiceInfo)>, used: nat, ghost usedLang: nat, ghost language: Outcome<string>)
      requires Valid()
      ensures usedLang <= used <= |lines|
      ensures r.Chosen? ==>
        r.value.0 in voicesData.entries && r.value.1 in voicesData.entries[r.value.0]
        && engine in r.value.1.engines
      ensures (forall k :: k in voicesData.entries ==> |SupportingVoices(voicesData.entries[k], engine)| == 0)
        ==> r == Back && used == 0
      ensures forall j {:trigger ParseChoice(lines[j], |LanguageMenu(engine)|, Some('b'))} ::
        0 <= j < usedLang && (j + 1 < usedLang || language == EndOfInput) ==>
        ParseChoice(lines[j], |LanguageMenu(engine)|, Some('b')) == Retry
      ensures language.Chosen? ==> 0 < usedLang && Picks(LanguageMenu(engine), lines[usedLang - 1], Some('b'), language.value)
      ensures language == Back ==> r == Back && used == usedLang
      ensures language == Back && LanguageMenu(engine) != [] ==> 0 < usedLang && LowerIs(Strip(lines[usedLang - 1]), 'b')
      ensures language == EndOfInput ==> r == EndOfInput && usedLang == |lines|
      ensures language.Chosen? ==>
        forall j {:trigger ParseChoice(lines[j], |VoiceMenu(language.value, engine)|, Some('b'))} ::
          usedLang <= j < used && (j + 1 < used || r == EndOfInput) ==>
          ParseChoice(lines[j], |VoiceMenu(language.value, engine)|, Some('b')) == Retry
      ensures r.Chosen? ==>
        language == Chosen(r.value.0) && usedLang < used
        && Picks(VoiceMenu(r.value.0, engine), lines[used - 1], Some('b'), r.value.1)
      ensures language.Chosen? && r == Back ==> usedLang < used
      ensures r == Back && used > 0 ==> LowerIs(Strip(lines[used - 1]), 'b')
      ensures r == EndOfInput ==> used == |lines|
    {
      var available := GetVoicesForEngine(engine);
      if available.keys != [] {
        assert available.keys[0] in available.entries;
      }
      r, used, usedLang, language := LanguageAndVoiceMenus(available, lines);
      if language.Chosen? {
        assert G.Get(available, language.value) == VoiceMenu(language.value, engine);
      }
    }
  }

  /** The language menu over the filtered catalogue, then the voice menu of
      the chosen language, each with 'b' to go back; nothing is asked when
      the filtered catalogue is empty. `language` is what the language menu
      ended with and `usedLang` the number of answers it consumed; the
      voice menu reads the answers after those. */
  method LanguageAndVoiceMenus(available: G.Groups<VoiceInfo>, lines: seq<string>)
    returns (r: Outcome<(string, VoiceInfo)>, used: nat, ghost usedLang: nat, ghost language: Outcome<string>)
    requires G.Valid(available)
    ensures usedLang <= used <= |lines|
    ensures available.keys == [] ==> r == Back && used == 0
    ensures forall j {:trigger ParseChoice(lines[j], |available.keys|, Some('b'))} ::
      0 <= j < usedLang && (j + 1 < usedLang || language == EndOfInput) ==>
      ParseChoice(lines[j], |available.keys|, Some('b')) == Retry
    ensures language.Chosen? ==>
      0 < usedLang && language.value in available.entries && Picks(available.keys, lines[usedLang - 1], Some('b'), language.value)
    ensures language == Back ==> r == Back && used == usedLang
    ensures language == Back && available.keys != [] ==> 0 < usedLang && LowerIs(Strip(lines[usedLang - 1]), 'b')
    ensures language == EndOfInput ==> r == EndOfInput && used == |lines| && usedLang == |lines|
    ensures language.Chosen? ==>
      forall j {:trigger ParseChoice(lines[j], |G.Get(available, language.value)|, Some('b'))} ::
        usedLang <= j < used && (j + 1 < used || r == EndOfInput) ==>
        ParseChoice(lines[j], |G.Get(available, language.value)|, Some('b')) == Retry
    ensures r.Chosen? ==>
      language == Chosen(r.value.0) && usedLang < used
      && Picks(G.Get(available, r.value.0), lines[used - 1], Some('b'), r.value.1)
    ensures r.Chosen? ==> r.value.0 in available.entries && r.value.1 in available.entries[r.value.0]
    ensures language.Chosen? && r == Back ==> usedLang < used
    ensures r == Back && used > 0 ==> LowerIs(Strip(lines[used - 1]), 'b')
    ensures r == EndOfInput ==> used == |lines|
  {
    var languages := available.keys;
    if languages == [] {
      return Back, 0, 0, Back;
    }
    var lang, usedL := Choose(languages, lines, Some('b'));
    language, usedLang, used := lang, usedL, usedL;
    if lang == Back {
      return Back, used, usedLang, language;
    } else if lang == EndOfInput {
      return EndOfInput, used, usedLang, language;
    }
    var selected := lang.value;
    assert selected in available.entries;
    var voices := available.entries[selected];
    var voice, more := Choose(voices, lines[used..], Some('b'));
    ghost var rest := lines[used..];
    forall j | used <= j < used + more && (j + 1 < used + more || voice == EndOfInput)
      ensures ParseChoice(lines[j], |voices|, Some('b')) == Retry
    {
      assert rest[j - used] == lines[j];
    }
    if voice == Back {
      assert rest[more - 1] == lines[used + more - 1];
      r := Back;
    } else if voice == EndOfInput {
      r := EndOfInput;
    } else {
      assert rest[more - 1] == lines[used + more - 1];
      r := Chosen((selected, voice.value));
    }
    used := used + more;
  }

  // ---------------------------------------------------------------------
  // Text selection

  /** A sample file name matches the language when either lower-cased name
      contains the other. */
  predicate SampleMatches(language: string, sampleName: string) {
    Contains(Lower(sampleName), Lower(language)) || Contains(Lower(language), Lower(sampleName))
  }

  function MatchesLanguage(language: string): ((string, string)) -> bool {
    (sample: (string, string)) => SampleMatches(language, sample.0)
  }

  /** The loop collecting, in order, the (name, content) samples that match. */
  method MatchingSamples(language: string, samples: seq<(string, string)>) returns (matches: seq<(string, string)>)
    ensures matches == Filter(samples, MatchesLanguage(language))
  {
    matches := [];
    for i := 0 to |samples|
      invariant matches == Filter(samples[..i], MatchesLanguage(language))
    {
      assert samples[..i + 1][..i] == samples[..i];
      if SampleMatches(language, samples[i].0) {
        matches := matches + [samples[i]];
      }
    }
    assert samples[..|samples|] == samples;
  }

  /** A sample is offered for a language exactly when the match rule holds. */
  lemma MatchingSampleIff(language: string, samples: seq<(string, string)>, i: nat)
    requires i < |samples|
    ensures samples[i] in Filter(samples, MatchesLanguage(language)) <==>
      SampleMatches(language, samples[i].0)
  {
    if SampleMatches(language, samples[i].0) {
      FilterKeeps(samples, MatchesLanguage(language), i);
    }
  }

  /** The "..." preview of a text, cut at `limit` characters. */
  function Preview(content: string, limit: nat): (r: string)
    ensures |r| <= limit + 3
    ensures |content| <= limit ==> r == content
    ensures |content| > limit ==> content[..limit] <= r && |r| == limit + 3
  {
    if |content| > limit then content[..limit] + "..." else content
  }

  /** Preview lengths: the sample lines of the language listing, and the
      sample sub-menu and the final summary. */
  const SamplePreviewLength: nat := 50
  const MenuPreviewLength: nat := 100

  /** A long sample text shows the same opening on its sample line and in
      the sample sub-menu; the sample line is never longer than 53
      characters and the sub-menu entry never longer than 103. */
  lemma PreviewsShareOpening(content: string)
    ensures |Preview(content, SamplePreviewLength)| <= 53 && |Preview(content, MenuPreviewLength)| <= 103
    ensures |content| > SamplePreviewLength ==>
      Preview(content, SamplePreviewLength) == content[..SamplePreviewLength] + "..."
      && Preview(content, MenuPreviewLength)[..SamplePreviewLength] == content[..SamplePreviewLength]
  {
  }

  /** The choice among the matching samples: the only one without asking,
      otherwise the numbered sample menu, which has no way back. With
      several samples, a chosen one is the entry the last answer picks,
      and every earlier answer asked again. */
  method ChooseSample(matches: seq<(string, string)>, lines: seq<string>) returns (r: Outcome<string>, used: nat)
    requires |matches| > 0
    ensures used <= |lines| && r != Back
    ensures r.Chosen? ==> exists m :: m in matches && r.value == m.1
    ensures |matches| == 1 ==> r == Chosen(matches[0].1) && used == 0
    ensures r == EndOfInput ==> used == |lines|
    ensures |matches| > 1 && r.Chosen? ==>
      0 < used && exists i :: 0 <= i < |matches| && ParseChoice(lines[used - 1], |matches|, None) == Select(i) && r.value == matches[i].1
    ensures |matches| > 1 ==>
      forall j {:trigger ParseChoice(lines[j], |matches|, None)} :: 0 <= j < used && (j + 1 < used || r == EndOfInput) ==>
        ParseChoice(lines[j], |matches|, None) == Retry
  {
    if |matches| == 1 {
      return Chosen(matches[0].1), 0;
    }
    var pick;
    pick, used := Choose(matches, lines, None);
    if pick.Chosen? {
      r := Chosen(pick.value.1);
    } else {
      r := EndOfInput;
    }
  }

  /** Answer `j` of the text-option loop decided nothing, with the answers
      before `bound` read: it is not 'b', not a '1' that takes a sample,
      and when it is '2' the custom text read after it was empty. */
  ghost predicate OptionPasses(matches: seq<(string, string)>, lines: seq<string>, j: nat, bound: nat) {
    j < bound <= |lines| &&
    var c := Strip(lines[j]);
    && !LowerIs(c, 'b')
    && !(IsSingle(c, '1') && |matches| > 0)
    && (IsSingle(c, '2') ==> j + 1 < bound && Strip(lines[j + 1]) == [])
  }

  lemma OptionPassesLater(matches: seq<(string, string)>, lines: seq<string>, j: nat, bound: nat, bound': nat)
    requires OptionPasses(matches, lines, j, bound) && bound <= bound' <= |lines|
    ensures OptionPasses(matches, lines, j, bound')
  {
  }

  /** What the answers to the text-option loop decide. Answer `decided`
      ends the loop (`decided == used` when the input ran out first), and
      every option answer before it decided nothing. 'b' goes back. A '1'
      with samples takes the only one, or the one the sample menu's last
      answer picks after every earlier sample answer asked again. A '2'
      takes the next answer, stripped and non-empty. */
  ghost predicate TextAnswers(matches: seq<(string, string)>, lines: seq<string>, r: Outcome<string>,
                              used: nat, decided: nat) {
    && decided <= used <= |lines|
    && PassesBefore(matches, lines, decided)
    && (decided == used ==> r == EndOfInput && used == |lines|)
    && (decided < used ==>
         var c := Strip(lines[decided]);
         && (LowerIs(c, 'b') || (IsSingle(c, '1') && |matches| > 0) || IsSingle(c, '2'))
         && (LowerIs(c, 'b') ==> r == Back && used == decided + 1)
         && (!LowerIs(c, 'b') && IsSingle(c, '1') && |matches| == 1 ==>
               r == Chosen(matches[0].1) && used == decided + 1)
         && (!LowerIs(c, 'b') && IsSingle(c, '1') && |matches| > 1 ==>
               && r != Back
               && (r == EndOfInput ==> used == |lines|)
               && (r.Chosen? ==>
                     decided + 1 < used
                     && exists i :: 0 <= i < |matches| && ParseChoice(lines[used - 1], |matches|, None) == Select(i)
                                    && r.value == matches[i].1)
               && (forall j {:trigger ParseChoice(lines[j], |matches|, None)} ::
                     decided < j < used && (j + 1 < used || r == EndOfInput) ==>
                     ParseChoice(lines[j], |matches|, None) == Retry))
         && (!LowerIs(c, 'b') && IsSingle(c, '2') ==>
               (r == EndOfInput && used == decided + 1 == |lines|)
               || (used == decided + 2 && Strip(lines[decided + 1]) != [] && r == Chosen(Strip(lines[decided + 1])))))
  }

  /** Every option answer before `at` decided nothing. */
  ghost predicate PassesBefore(matches: seq<(string, string)>, lines: seq<string>, at: nat) {
    forall j {:trigger OptionPasses(matches, lines, j, at)} :: 0 <= j < at ==> OptionPasses(matches, lines, j, at)
  }

  lemma BackAnswers(matches: seq<(string, string)>, lines: seq<string>, at: nat)
    requires at < |lines| && PassesBefore(matches, lines, at) && LowerIs(Strip(lines[at]), 'b')
    ensures TextAnswers(matches, lines, Back, at + 1, at)
  {
  }

  lemma SampleAnswers(matches: seq<(string, string)>, lines: seq<string>, at: nat, r: Outcome<string>, used: nat)
    requires at < used <= |lines| && PassesBefore(matches, lines, at)
    requires !LowerIs(Strip(lines[at]), 'b') && IsSingle(Strip(lines[at]), '1') && |matches| > 0
    requires r != Back && (r == EndOfInput ==> used == |lines|)
    requires |matches| == 1 ==> r == Chosen(matches[0].1) && used == at + 1
    requires |matches| > 1 && r.Chosen? ==>
      at + 1 < used && exists i :: 0 <= i < |matches| && ParseChoice(lines[used - 1], |matches|, None) == Select(i) && r.value == matches[i].1
    requires |matches| > 1 ==>
      forall j {:trigger ParseChoice(lines[j], |matches|, None)} :: at < j < used && (j + 1 < used || r == EndOfInput) ==>
        ParseChoice(lines[j], |matches|, None) == Retry
    ensures TextAnswers(matches, lines, r, used, at)
  {
  }

  lemma CustomAnswers(matches: seq<(string, string)>, lines: seq<string>, at: nat, r: Outcome<string>, used: nat)
    requires at < used <= |lines| && PassesBefore(matches, lines, at)
    requires !LowerIs(Strip(lines[at]), 'b') && !(IsSingle(Strip(lines[at]), '1') && |matches| > 0) && IsSingle(Strip(lines[at]), '2')
    requires (r == EndOfInput && used == at + 1 == |lines|)
      || (used == at + 2 && Strip(lines[at + 1]) != [] && r == Chosen(Strip(lines[at + 1])))
    ensures TextAnswers(matches, lines, r, used, at)
  {
  }

  lemma OutOfAnswers(matches: seq<(string, string)>, lines: seq<string>)
    requires PassesBefore(matches, lines, |lines|)
    ensures TextAnswers(matches, lines, EndOfInput, |lines|, |lines|)
  {
  }

  /** Option answer `at` decided nothing either, and neither did the empty
      custom text read after it, if any. */
  lemma PassesExtend(matches: seq<(string, string)>, lines: seq<string>, at: nat, bound: nat)
    requires PassesBefore(matches, lines, at) && OptionPasses(matches, lines, at, bound)
    requires bound == at + 1 || (bound == at + 2 && Strip(lines[at + 1]) == [])
    ensures PassesBefore(matches, lines, bound)
  {
    forall j | 0 <= j < bound
      ensures OptionPasses(matches, lines, j, bound)
    {
      if j < at {
        OptionPassesLater(matches, lines, j, at, bound);
      }
    }
  }

  /** The '1' branch of the text-option loop when samples match: the
      sample choice over the answers after answer `at`. */
  method TakeSample(matches: seq<(string, string)>, lines: seq<string>, at: nat) returns (r: Outcome<string>, used: nat)
    requires at < |lines| && PassesBefore(matches, lines, at)
    requires !LowerIs(Strip(lines[at]), 'b') && IsSingle(Strip(lines[at]), '1') && |matches| > 0
    ensures at < used <= |lines| && r != Back
    ensures TextAnswers(matches, lines, r, used, at)
    ensures r.Chosen? ==> exists m :: m in matches && r.value == m.1
    ensures r == EndOfInput ==> used == |lines|
  {
    var more;
    r, more := ChooseSample(matches, lines[at + 1..]);
    ghost var rest := lines[at + 1..];
    used := at + 1 + more;
    if |matches| > 1 {
      forall j | at < j < used && (j + 1 < used || r == EndOfInput)
        ensures ParseChoice(lines[j], |matches|, None) == Retry
      {
        assert rest[j - at - 1] == lines[j];
      }
      if r.Chosen? {
        assert rest[more - 1] == lines[used - 1];
      }
    }
    SampleAnswers(matches, lines, at, r, used);
  }

  /** With two matching samples, answering '1' and then '2' takes the
      second sample: the answers leave no other outcome. */
  lemma OneThenTwoPicksSecond(matches: seq<(string, string)>, r: Outcome<string>, used: nat, decided: nat)
    requires |matches| == 2 && TextAnswers(matches, ["1", "2"], r, used, decided)
    ensures r == Chosen(matches[1].1) && used == 2 && decided == 0
  {
    var lines: seq<string> := ["1", "2"];
    StripUnchanged(lines[0]);
    StripUnchanged(lines[1]);
    assert NatToString(2) == lines[1];
    LabelSelects(2, 2, None);
    if decided > 0 {
      // the first answer, a '1' with samples, would have ended the loop
      var firstPasses := OptionPasses(matches, lines, 0, decided);
    }
  }

  /** The text-option loop of select_text_content over the matching samples:
      '1' takes a sample (asking which when there are several; refused when
      there is none), '2' reads a custom text and re-asks when it is empty,
      'b' goes back, anything else asks again. `decided` is the position of
      the answer that ended the loop. */
  method TextMenu(matches: seq<(string, string)>, lines: seq<string>)
    returns (r: Outcome<string>, used: nat, ghost decided: nat)
    ensures used <= |lines|
    ensures TextAnswers(matches, lines, r, used, decided)
    ensures r.Chosen? || r == Back ==> 0 < used
    ensures r.Chosen? ==>
      (exists m :: m in matches && r.value == m.1) || (r.value != [] && r.value == Strip(lines[used - 1]))
    ensures matches == [] && r.Chosen? ==> r.value != [] && r.value == Strip(lines[used - 1])
    ensures r == Back ==> LowerIs(Strip(lines[used - 1]), 'b')
    ensures r == EndOfInput ==> used == |lines|
  {
    used := 0;
    while used < |lines|
      invariant used <= |lines|
      invariant PassesBefore(matches, lines, used)
      decreases |lines| - used
    {
      var choice := Strip(lines[used]);
      var at := used;
      used := used + 1;
      if LowerIs(choice, 'b') {
        BackAnswers(matches, lines, at);
        return Back, used, at;
      } else if IsSingle(choice, '1') && |matches| > 0 {
        r, used := TakeSample(matches, lines, at);
        decided := at;
        return;
      } else if IsSingle(choice, '2') {
        if used == |lines| {
          CustomAnswers(matches, lines, at, EndOfInput, used);
          return EndOfInput, used, at;
        }
        var text := Strip(lines[used]);
        used := used + 1;
        if text != [] {
          CustomAnswers(matches, lines, at, Chosen(text), used);
          return Chosen(text), used, at;
        }
        PassesExtend(matches, lines, at, used);
      } else {
        PassesExtend(matches, lines, at, used);
      }
    }
    OutOfAnswers(matches, lines);
    r, decided := EndOfInput, used;
  }

  /** select_text_content over the operator's answers, given the sample
      texts found: the text-option loop over the samples whose names match
      the language. A chosen text is either the content of a matching
      sample or the non-empty stripped last answer, and only the latter
      when no sample matches. */
  method SelectTextContent(language: string, samples: seq<(string, string)>, lines: seq<string>)
    returns (r: Outcome<string>, used: nat, ghost decided: nat)
    ensures used <= |lines|
    ensures TextAnswers(Filter(samples, MatchesLanguage(language)), lines, r, used, decided)
    ensures r.Chosen? || r == Back ==> 0 < used
    ensures r.Chosen? ==>
      (exists m :: m in samples && SampleMatches(language, m.0) && r.value == m.1)
      || (r.value != [] && r.value == Strip(lines[used - 1]))
    ensures (forall m :: m in samples ==> !SampleMatches(language, m.0)) && r.Chosen? ==>
      r.value != [] && r.value == Strip(lines[used - 1])
    ensures r == Back ==> LowerIs(Strip(lines[used - 1]), 'b')
    ensures r == EndOfInput ==> used == |lines|
  {
    var matches := MatchingSamples(language, samples);
    if matches != [] {
      assert matches[0] in samples && SampleMatches(language, matches[0].0);
    }
    r, used, decided := TextMenu(matches, lines);
  }

  // ---------------------------------------------------------------------
  // Synthesis request and temporary file

  datatype SynthesisRequest = SynthesisRequest(
    voiceId: string,
    languageCode: string,
    outputFormat: string,
    text: string,
    textType: string,
    engine: string)

  /** The service's answer: an audio stream, a client error with its code,
      or any other failure. */
  datatype ServiceReply = AudioStream(bytes: seq<bv8>) | ClientError(code: string) | OtherFailure

  /** What synthesize_speech reports: the saved file, or the kind of failure
      it prints before returning None. */
  datatype SynthesisResult =
    | Saved(path: string, audio: seq<bv8>)
    | InvalidParameter
    | TextTooLong
    | ServiceError(code: string)
    | Failed

  const TempPrefix: string := "polly_demo_"
  const TempSuffix: string := ".mp3"
  /** The pattern cleanup_temp_files deletes in the temporary directory,
      "polly_demo_*.mp3". */
  const CleanupPattern: string := TempPrefix + "*" + TempSuffix

  /** `f"polly_demo_{voice_id}_{engine}.mp3"`: always deleted by cleanup. */
  function TempFileName(voiceId: string, engine: string): (name: string)
    ensures Glob.Match(CleanupPattern, name)
    ensures |name| == |TempPrefix| + |voiceId| + 1 + |engine| + |TempSuffix|
    ensures TempPrefix <= name && name[|TempPrefix|..|TempPrefix| + |voiceId|] == voiceId
    ensures name[|name| - |TempSuffix| - |engine|..|name| - |TempSuffix|] == engine
  {
    var name := TempPrefix + voiceId + "_" + engine + TempSuffix;
    CleanupMatchesExactly(name);
    name
  }

  /** Cleanup deletes exactly the names that start with "polly_demo_" and end
      with ".mp3" (with at least those 15 characters), whichever voice and
      engine produced them. */
  lemma CleanupMatchesExactly(name: string)
    ensures Glob.Match(CleanupPattern, name) <==>
      |TempPrefix| + |TempSuffix| <= |name| && TempPrefix <= name && Glob.EndsWith(name, TempSuffix)
  {
    TempPartsStarFree();
    Glob.PrefixStarSuffixMatch(TempPrefix, TempSuffix, name);
  }

  lemma TempPartsStarFree()
    ensures Glob.StarFree(TempPrefix) && Glob.StarFree(TempSuffix)
  {
  }

  /** `temp_dir / name` for a normalised directory path. */
  function JoinPath(dir: string, name: string): string {
    if dir == [] then name
    else if dir[|dir| - 1] == '/' then dir + name
    else dir + "/" + name
  }

  /** The request synthesize_speech sends: the text wrapped in `<speak>`
      unless it already is, as SSML, mp3 output. */
  function SynthesisRequestFor(text: string, voiceId: string, languageCode: string, engine: string)
    : (q: SynthesisRequest)
    ensures Ssml.IsWrapped(q.text) && q.textType == "ssml" && q.outputFormat == "mp3"
    ensures Ssml.IsWrapped(text) ==> q.text == text
    ensures q.voiceId == voiceId && q.languageCode == languageCode && q.engine == engine
  {
    SynthesisRequest(voiceId, languageCode, "mp3", Ssml.WrapIfNeeded(text), "ssml", engine)
  }

  /** synthesize_speech given the service's behaviour: the audio is saved
      under the temporary name exactly when the service returns a stream;
      client errors are told apart by their codes. */
  function SynthesizeSpeech(text: string, voiceId: string, languageCode: string, engine: string,
                            tempDir: string, service: SynthesisRequest -> ServiceReply): (r: SynthesisResult)
    ensures r.Saved? <==> service(SynthesisRequestFor(text, voiceId, languageCode, engine)).AudioStream?
    ensures r.Saved? ==>
      r.path == JoinPath(tempDir, TempFileName(voiceId, engine)) &&
      r.audio == service(SynthesisRequestFor(text, voiceId, languageCode, engine)).bytes
    ensures r == TextTooLong <==>
      service(SynthesisRequestFor(text, voiceId, languageCode, engine)) == ClientError("TextLengthExceededException")
  {
    match service(SynthesisRequestFor(text, voiceId, languageCode, engine))
    case AudioStream(bytes) => Saved(JoinPath(tempDir, TempFileName(voiceId, engine)), bytes)
    case ClientError(code) =>
      if code == "InvalidParameterValue" then InvalidParameter
      else if code == "TextLengthExceededException" then TextTooLong
      else ServiceError(code)
    case OtherFailure => Failed
  }
}
