/** What parsing can produce: exactly the lists of printable models. */
module ParseRange {
  import opened Basics
  import opened NestedOption
  import opened Extensions
  import opened ValueText
  import opened KeyScanner
  import opened DottedKeys
  import opened WhiteSpace
  import opened ModelKeys
  import opened ModelKeysRoundTrip
  import opened OptionTrees
  import opened OptionListings

  // ---------------------------------------------------------------- what the scanners cut out

  lemma InferredIsPrintable(raw: string)
    requires raw != [] && All(raw, IsPlainChar)
    ensures PrintableValue(InferValue(raw))
  {
  }

  lemma {:induction false} SplitPartsAreKeys(k: string, cur: string)
    requires All(k, IsKeyChar) && All(cur, IsKeyStart)
    ensures forall i :: 0 <= i < |SplitFrom(k, cur)| ==> IsKeyPart(SplitFrom(k, cur)[i])
    decreases |k|
  {
    if k != [] {
      SplitPartsAreKeys(k[1..], if k[0] == '.' then [] else cur + [k[0]]);
    }
  }

  lemma MatchedOptionIsPlain(s: string)
    requires MatchOption(s).Some? && All(s, IsNotClose)
    ensures var m := MatchOption(s).value;
            All(m.key, IsKeyChar) && All(m.value, IsPlainChar) && All(s[m.length..], IsNotClose)
  {
    var before, after := MatchOptionIsSound(s);
    var m := MatchOption(s).value;
    ValueIsWithin(s, m.key + before + ['='] + after, m.value);
  }

  lemma ValueIsWithin(s: string, front: string, value: string)
    requires All(s, IsNotClose) && All(value, IsValueChar) && front + value <= s
    ensures All(value, IsPlainChar)
  {
    forall i | 0 <= i < |value| ensures IsPlainChar(value[i]) {
      assert (front + value)[|front| + i] == value[i] == s[|front| + i];
    }
  }

  lemma {:induction false} SearchOptionIsSound(s: string)
    requires SearchOption(s).Some? && All(s, IsNotClose)
    ensures var (m, rest) := SearchOption(s).value;
            && All(m.key, IsKeyChar) && m.value != [] && All(m.value, IsPlainChar) && All(rest, IsNotClose)
    decreases |s|
  {
    if MatchOption(s).Some? {
      MatchedOptionIsPlain(s);
    } else {
      SearchOptionIsSound(s[1..]);
    }
  }

  lemma {:induction false} SearchKeyIsSound(s: string)
    requires SearchKey(s).Some?
    ensures var m := SearchKey(s).value.0;
            && m.name != [] && All(m.name, IsNameChar) && m.version != [] && All(m.version, IsVersionChar)
            && All(m.options, IsNotClose)
    decreases |s|
  {
    if MatchKey(s).Some? {
      MatchKeyIsSound(s);
    } else {
      SearchKeyIsSound(s[1..]);
    }
  }

  // ---------------------------------------------------------------- updates keep a tree printable

  lemma {:induction false} SetKeepsPrintableBelow(t: Json, p: Path, v: Json)
    requires p != [] && PrintableValue(v) && (t.Obj? ==> PrintableBelow(t))
    requires forall i :: 0 <= i < |p| ==> IsKeyPart(p[i])
    ensures PrintableBelow(SetAt(t, p, v))
    decreases |p|
  {
    if |p| > 1 {
      SetKeepsPrintableBelow(Child(t, p[0]), p[1..], v);
    }
  }

  lemma ChildKeepsPrintable(t: Json, k: string, sub: Json)
    requires PrintableTree(t) && IsKeyPart(k) && PrintableBelow(sub)
    requires (k == EXTENSIONS_KEY || k == LEGACY_EXTENSION_KEY) ==> !sub.Str?
    requires Full(Obj(t.fields[k := sub]))
    ensures PrintableTree(Obj(t.fields[k := sub]))
  {
  }

  lemma SetKeepsPrintable(t: Json, p: Path, v: Json)
    requires PrintableTree(t) && p != [] && PrintableValue(v) && !IsExtensionEntry(p, v)
    requires forall i :: 0 <= i < |p| ==> IsKeyPart(p[i])
    ensures PrintableTree(SetAt(t, p, v))
  {
    FullAfterSet(t, p, v);
    if |p| > 1 {
      SetKeepsPrintableBelow(Child(t, p[0]), p[1..], v);
      ChildKeepsPrintable(t, p[0], SetAt(Child(t, p[0]), p[1..], v));
    } else {
      assert p == [p[0]];
      ChildKeepsPrintable(t, p[0], v);
    }
  }

  lemma ExtensionKeepsPrintable(t: Json, path: string)
    requires PrintableTree(t) && PrintableValue(Str(path))
    ensures PrintableTree(WithExtension(t, path))
  {
    var texts: seq<string> := [];
    if Child(t, EXTENSIONS_KEY).Arr? {
      texts :| PrintableArray(Child(t, EXTENSIONS_KEY), texts);
    }
    DedupOfDistinct(texts);
    assert ExtensionItems(t) == Strings(Dedup(texts));
    OneMoreExtension(t, texts, path);
    DistinctTexts(texts, path);
    SetExtensions(t, Dedup(texts + [path]));
  }

  lemma SetExtensions(t: Json, texts: seq<string>)
    requires PrintableTree(t) && PrintableArray(Arr(Strings(texts)), texts)
    ensures PrintableTree(SetAt(t, [EXTENSIONS_KEY], Arr(Strings(texts))))
  {
    var items := Arr(Strings(texts));
    FullAfterSet(t, [EXTENSIONS_KEY], items);
    assert IsKeyPart(EXTENSIONS_KEY);
    NoLegacy(items);
    assert PrintableArray(items, texts);
  }

  lemma DistinctTexts(texts: seq<string>, path: string)
    requires forall i, j :: 0 <= i < j < |texts| ==> texts[i] != texts[j]
    requires forall i :: 0 <= i < |texts| ==> PrintableValue(Str(texts[i]))
    requires PrintableValue(Str(path))
    ensures var more := Dedup(texts + [path]);
            && more != []
            && (forall i, j :: 0 <= i < j < |more| ==> more[i] != more[j])
            && forall i :: 0 <= i < |more| ==> PrintableValue(Str(more[i]))
  {
    DedupOfDistinct(texts);
    assert (texts + [path])[..|texts|] == texts;
  }

  lemma {:induction false} OptionsArePrintable(option: Json, s: string)
    requires PrintableTree(option) && All(s, IsNotClose)
    ensures PrintableTree(OptionsFrom(option, s))
    decreases |s|
  {
    var found := SearchOption(s);
    if found.Some? {
      var (m, rest) := found.value;
      SearchOptionIsSound(s);
      InferredIsPrintable(m.value);
      SplitPartsAreKeys(m.key, []);
      SplitIsNotEmpty(m.key, []);
      var path, value := SplitFrom(m.key, []), InferValue(m.value);
      if IsExtensionEntry(path, value) {
        ExtensionKeepsPrintable(option, value.text);
      } else {
        SetKeepsPrintable(option, path, value);
      }
      OptionsArePrintable(Apply(option, path, value), rest);
    }
  }

  // ---------------------------------------------------------------- the range of the parser

  lemma {:induction false} ModelsArePrintable(list: string)
    requires ModelsIn(list).Some?
    ensures forall i :: 0 <= i < |ModelsIn(list).value| ==> PrintableModel(ModelsIn(list).value[i])
    decreases |list|
  {
    var found := SearchKey(list);
    if found.Some? {
      var (m, rest) := found.value;
      SearchKeyIsSound(list);
      assert PrintableTree(Obj(map[]));
      OptionsArePrintable(Obj(map[]), m.options);
      ModelsArePrintable(rest);
      OneMorePrintable(Model(m.name, m.version, OptionsFrom(Obj(map[]), m.options)), ModelsIn(rest).value);
    }
  }

  lemma OneMorePrintable(m: Model, models: seq<Model>)
    requires PrintableModel(m) && forall i :: 0 <= i < |models| ==> PrintableModel(models[i])
    ensures forall i :: 0 <= i < |[m] + models| ==> PrintableModel(([m] + models)[i])
  {
  }

  /** A list of models is what some text parses to exactly when its names, versions and option trees are printable. */
  lemma ParseRange(models: seq<Model>)
    ensures (exists text :: ModelsParsed(text) == Some(models)) <==>
            forall i :: 0 <= i < |models| ==> PrintableModel(models[i])
  {
    if text :| ModelsParsed(text) == Some(models) {
      ModelsArePrintable(Normalized(text));
    }
    if forall i :: 0 <= i < |models| ==> PrintableModel(models[i]) {
      var text := EveryModelListHasText(models);
    }
  }
}
