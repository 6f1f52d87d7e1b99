/** Parsing the model list: "name:version(key=value,...) name:version ...". */
module ModelKeys {
  import opened Basics
  import opened NestedOption
  import opened Extensions
  import opened ValueText
  import opened KeyScanner
  import opened Matches
  import opened Searches
  import opened DottedKeys
  import opened WhiteSpace

  datatype Model = Model(name: string, version: string, option: Json)

  // ---------------------------------------------------------------- one option list

  predicate IsExtensionEntry(path: Path, value: Json) {
    (path == [EXTENSIONS_KEY] || path == [LEGACY_EXTENSION_KEY]) && value.Str?
  }

  /** What one key and value do to an option object. */
  function Apply(option: Json, path: Path, value: Json): Json
    requires path != []
  {
    if IsExtensionEntry(path, value) then WithExtension(option, value.text) else SetAt(option, path, value)
  }

  /** The option object after every entry found in `s`, in order. */
  function OptionsFrom(option: Json, s: string): Json
    decreases |s|
  {
    match SearchOption(s)
    case None => option
    case Some((m, rest)) =>
      SplitIsNotEmpty(m.key, []);
      OptionsFrom(Apply(option, SplitFrom(m.key, []), InferValue(m.value)), rest)
  }

  function FoundOption(s: string, at: nat): Option<OptionMatch> {
    if at <= |s| then MatchOption(s[at..]) else None
  }

  /** The option object after the entries at the matches, in order. */
  function OptionsAt(option: Json, s: string, fs: seq<Found>): Json
    decreases |fs|
  {
    if fs == [] then option
    else
      match FoundOption(s, fs[0].start)
      case None => OptionsAt(option, s, fs[1..])
      case Some(m) =>
        SplitIsNotEmpty(m.key, []);
        OptionsAt(Apply(option, SplitFrom(m.key, []), InferValue(m.value)), s, fs[1..])
  }

  /** Every entry that matches is applied, in order, whatever stands before, between and after the matches. */
  lemma {:induction false} OptionsExactly(option: Json, s: string, pos: nat, fs: seq<Found>)
    requires pos <= |s| && AreMatches(OptionLength, s, pos, fs)
    ensures OptionsFrom(option, s[pos..]) == OptionsAt(option, s, fs)
    decreases |fs|
  {
    if fs == [] {
      NoOption(s, pos);
    } else {
      NextOption(s, pos, fs[0]);
      var m := FoundOption(s, fs[0].start).value;
      SplitIsNotEmpty(m.key, []);
      var next := Apply(option, SplitFrom(m.key, []), InferValue(m.value));
      OptionsExactly(next, s, fs[0].end, fs[1..]);
      OneMoreOption(option, s[pos..], m, s[fs[0].end..], next);
    }
  }

  lemma OneMoreOption(option: Json, s: string, m: OptionMatch, rest: string, next: Json)
    requires SearchOption(s) == Some((m, rest)) && SplitFrom(m.key, []) != []
    requires next == Apply(option, SplitFrom(m.key, []), InferValue(m.value))
    ensures OptionsFrom(option, s) == OptionsFrom(next, rest)
  {
  }

  method ParseOptions(list: string, option: OptionCell)
    requires option.value.Obj?
    modifies option
    ensures option.value == OptionsFrom(old(option.value), list)
    ensures forall fs :: AreMatches(OptionLength, list, 0, fs) ==> option.value == OptionsAt(old(option.value), list, fs)
  {
    assert list[0..] == list;
    forall fs | AreMatches(OptionLength, list, 0, fs)
      ensures OptionsFrom(old(option.value), list) == OptionsAt(old(option.value), list, fs)
    {
      OptionsExactly(old(option.value), list, 0, fs);
    }
    var optionStr := list;
    while true
      invariant option.value.Obj?
      invariant OptionsFrom(option.value, optionStr) == OptionsFrom(old(option.value), list)
      decreases |optionStr|
    {
      var found := SearchOption(optionStr);
      if found.None? {
        break;
      }
      var (m, suffix) := found.value;
      var value := InferValue(m.value);
      var parts := SplitDot(m.key);
      SplitIsNotEmpty(m.key, []);
      if |parts| == 1 && (parts[0] == EXTENSIONS_KEY || parts[0] == LEGACY_EXTENSION_KEY) && value.Str? {
        AppendExtension(option, value.text);
      } else {
        option.SetNested(parts, value);
      }
      optionStr := suffix;
    }
  }

  // ---------------------------------------------------------------- the model list

  /** The models found in `list`; none of them if text is left over after the last. */
  function ModelsIn(list: string): Option<seq<Model>>
    decreases |list|
  {
    match SearchKey(list)
    case None => if list == [] then Some([]) else None
    case Some((m, rest)) =>
      match ModelsIn(rest)
      case None => None
      case Some(models) => Some([Model(m.name, m.version, OptionsFrom(Obj(map[]), m.options))] + models)
  }

  function ModelsParsed(modelKeyList: string): Option<seq<Model>> {
    ModelsIn(Normalized(modelKeyList))
  }

  /** The models that the matches of the key stand for. */
  function ModelsAt(list: string, fs: seq<Found>): seq<Model>
  {
    if fs == [] then []
    else
      (match FoundKey(list, fs[0].start)
       case Some(m) => [Model(m.name, m.version, OptionsFrom(Obj(map[]), m.options))]
       case None => [])
      + ModelsAt(list, fs[1..])
  }

  function FoundKey(list: string, at: nat): Option<KeyMatch> {
    if at <= |list| then MatchKey(list[at..]) else None
  }

  /** A list is accepted when its last match ends it, whatever stands before and between the matches. */
  lemma {:induction false} AcceptedExactly(list: string, pos: nat, fs: seq<Found>)
    requires pos <= |list| && AreMatches(KeyLength, list, pos, fs)
    ensures ModelsIn(list[pos..]) == if End(pos, fs) == |list| then Some(ModelsAt(list, fs)) else None
    decreases |fs|
  {
    if fs == [] {
      NoKey(list, pos);
    } else {
      NextKey(list, pos, fs[0]);
      AcceptedExactly(list, fs[0].end, fs[1..]);
      OneMoreModel(list[pos..], list[fs[0].end..], list, pos, fs);
    }
  }

  lemma OneMoreModel(s: string, rest: string, list: string, pos: nat, fs: seq<Found>)
    requires fs != [] && FoundKey(list, fs[0].start).Some?
    requires SearchKey(s) == Some((FoundKey(list, fs[0].start).value, rest))
    requires ModelsIn(rest) == if End(fs[0].end, fs[1..]) == |list| then Some(ModelsAt(list, fs[1..])) else None
    ensures ModelsIn(s) == if End(pos, fs) == |list| then Some(ModelsAt(list, fs)) else None
  {
    var m := FoundKey(list, fs[0].start).value;
    FirstModelIn(s, m, rest);
    FirstModelAt(list, fs, fs[1..], m);
  }

  lemma FirstModelIn(s: string, m: KeyMatch, rest: string)
    requires SearchKey(s) == Some((m, rest))
    ensures |rest| < |s|
    ensures ModelsIn(s) ==
            match ModelsIn(rest)
            case None => None
            case Some(models) => Some([Model(m.name, m.version, OptionsFrom(Obj(map[]), m.options))] + models)
  {
  }

  lemma FirstModelAt(list: string, fs: seq<Found>, rest: seq<Found>, m: KeyMatch)
    requires fs != [] && rest == fs[1..] && FoundKey(list, fs[0].start) == Some(m)
    ensures ModelsAt(list, fs) == [Model(m.name, m.version, OptionsFrom(Obj(map[]), m.options))] + ModelsAt(list, rest)
    ensures forall pos :: End(pos, fs) == End(fs[0].end, rest)
  {
  }

  function Prepend(done: seq<Model>, rest: Option<seq<Model>>): Option<seq<Model>> {
    match rest
    case None => None
    case Some(models) => Some(done + models)
  }

  /** The words of the text, one space apart, decide: the last match among them has to end them. */
  ghost predicate ParsesTo(text: string, result: Option<seq<Model>>) {
    forall ws, gaps, fs ::
      AreWords(ws) && AreGaps(gaps, |ws|) && Spaced(ws, gaps) == text && AreMatches(KeyLength, SpaceJoined(ws), 0, fs) ==>
        result == if End(0, fs) == |SpaceJoined(ws)| then Some(ModelsAt(SpaceJoined(ws), fs)) else None
  }

  lemma MatchesDecide(text: string)
    ensures ParsesTo(text, ModelsParsed(text))
  {
    forall ws, gaps, fs |
      AreWords(ws) && AreGaps(gaps, |ws|) && Spaced(ws, gaps) == text && AreMatches(KeyLength, SpaceJoined(ws), 0, fs)
      ensures ModelsParsed(text) ==
              if End(0, fs) == |SpaceJoined(ws)| then Some(ModelsAt(SpaceJoined(ws), fs)) else None
    {
      NormalizedText(ws, gaps);
      AcceptedExactly(SpaceJoined(ws), 0, fs);
      assert SpaceJoined(ws)[0..] == SpaceJoined(ws);
    }
  }

  /** Only the words matter: texts that differ in white space parse alike. */
  lemma WhiteSpaceIsIgnored(ws: seq<string>, gaps: seq<string>, others: seq<string>)
    requires AreWords(ws) && AreGaps(gaps, |ws|) && AreGaps(others, |ws|)
    ensures ModelsParsed(Spaced(ws, gaps)) == ModelsParsed(Spaced(ws, others)) == ModelsIn(SpaceJoined(ws))
  {
    NormalizedText(ws, gaps);
    NormalizedText(ws, others);
  }

  /** None when the list is rejected as invalid. */
  method Parse(modelKeyList: string) returns (result: Option<seq<Model>>)
    ensures result == ModelsParsed(modelKeyList)
    ensures ParsesTo(modelKeyList, result)
  {
    MatchesDecide(modelKeyList);
    var models: seq<Model> := [];
    var list := Normalized(modelKeyList);
    if |list| == 0 {
      return Some(models);
    }
    assert Prepend([], ModelsIn(list)) == ModelsIn(list) by {
      assert ModelsIn(list).Some? ==> [] + ModelsIn(list).value == ModelsIn(list).value;
    }
    while true
      invariant Prepend(models, ModelsIn(list)) == ModelsParsed(modelKeyList)
      decreases |list|
    {
      var found := SearchKey(list);
      if found.None? {
        break;
      }
      var (keys, suffix) := found.value;
      var option := new OptionCell();
      if |keys.options| != 0 {
        ParseOptions(keys.options, option);
      }
      PrependOne(models, Model(keys.name, keys.version, option.value), ModelsIn(suffix));
      models := models + [Model(keys.name, keys.version, option.value)];
      list := suffix;
    }
    if |list| != 0 {
      return None;
    }
    assert models + [] == models;
    result := Some(models);
  }

  lemma PrependOne(done: seq<Model>, m: Model, rest: Option<seq<Model>>)
    ensures Prepend(done, Prepend([m], rest)) == Prepend(done + [m], rest)
  {
    if rest.Some? {
      assert done + ([m] + rest.value) == done + [m] + rest.value;
    }
  }
}
