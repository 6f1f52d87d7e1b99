/** Printing a model list and parsing it gives back the same models, option by option. */
module ModelKeysRoundTrip {
  import opened Basics
  import opened NestedOption
  import opened ValueText
  import opened KeyScanner
  import opened DottedKeys
  import opened WhiteSpace
  import opened ModelKeys

  /** One option: where it goes, and a value that has a text. */
  datatype Binding = Binding(path: Path, value: Json)

  datatype Entry = Entry(name: string, version: string, bindings: seq<Binding>)

  predicate IsPlainChar(c: char) { IsValueChar(c) && c != ')' }

  /** A boolean, a 64-bit integer, or a string that is not mistaken for either and ends no value or group. */
  predicate PrintableValue(v: Json) {
    match v
    case Bool(_) => true
    case Int(n) => INT64_MIN <= n <= INT64_MAX
    case Str(s) => s != [] && All(s, IsPlainChar) && InferValue(s) == v
    case _ => false
  }

  predicate PrintableBinding(b: Binding) {
    && b.path != [] && PrintableValue(b.value)
    && forall i :: 0 <= i < |b.path| ==> b.path[i] != [] && All(b.path[i], IsKeyStart)
  }

  predicate PrintableEntry(e: Entry) {
    && e.name != [] && All(e.name, IsNameChar)
    && e.version != [] && All(e.version, IsVersionChar)
    && forall i :: 0 <= i < |e.bindings| ==> PrintableBinding(e.bindings[i])
  }

  // ---------------------------------------------------------------- the printer

  function TextOf(v: Json): string
    requires PrintableValue(v)
  {
    match v
    case Bool(flag) => if flag then "true" else "false"
    case Int(n) => PrintInt(n)
    case Str(s) => s
  }

  function BindingText(b: Binding): string
    requires PrintableBinding(b)
  {
    JoinDot(b.path) + ['='] + TextOf(b.value)
  }

  function BindingsText(bs: seq<Binding>): string
    requires forall i :: 0 <= i < |bs| ==> PrintableBinding(bs[i])
  {
    if bs == [] then []
    else BindingText(bs[0]) + (if |bs| == 1 then [] else [','] + BindingsText(bs[1..]))
  }

  function EntryText(e: Entry): string
    requires PrintableEntry(e)
  {
    e.name + [':'] + e.version + GroupText(BindingsText(e.bindings))
  }

  /** The options in parentheses, or nothing if there are none. */
  function GroupText(body: string): string {
    if body == [] then [] else ['('] + body + [')']
  }

  function ListText(es: seq<Entry>): string
    requires forall i :: 0 <= i < |es| ==> PrintableEntry(es[i])
  {
    if es == [] then []
    else EntryText(es[0]) + (if |es| == 1 then [] else [' '] + ListText(es[1..]))
  }

  // ---------------------------------------------------------------- keys and values

  /** Splitting at the dots undoes joining with them. */
  lemma {:induction false} SplitUndoesJoin(path: Path)
    requires path != [] && forall i :: 0 <= i < |path| ==> path[i] != [] && All(path[i], IsKeyStart)
    ensures SplitFrom(JoinDot(path), []) == path
  {
    forall i | 0 <= i < |path| ensures '.' !in path[i] {
      NoDot(path[i]);
    }
    SplitKeepsNonEmpty(path);
    NoneIsEmpty(path);
  }

  lemma NoDot(part: string)
    requires All(part, IsKeyStart)
    ensures '.' !in part
  {
  }

  lemma {:induction false} NoneIsEmpty(parts: seq<string>)
    requires forall i :: 0 <= i < |parts| ==> parts[i] != []
    ensures NonEmpty(parts) == parts
  {
    if parts != [] {
      NoneIsEmpty(parts[1..]);
      assert parts == [parts[0]] + parts[1..];
    }
  }

  lemma {:induction false} JoinedIsKey(path: Path)
    requires path != [] && forall i :: 0 <= i < |path| ==> path[i] != [] && All(path[i], IsKeyStart)
    ensures JoinDot(path) != [] && IsKeyStart(JoinDot(path)[0]) && All(JoinDot(path), IsKeyChar)
  {
    if |path| > 1 {
      JoinedIsKey(path[1..]);
    }
  }

  lemma TextIsPlain(v: Json)
    requires PrintableValue(v)
    ensures TextOf(v) != [] && All(TextOf(v), IsPlainChar)
    ensures InferValue(TextOf(v)) == v
  {
    if v.Int? {
      IntRoundTrip(v.number);
      var digits := PrintNat(if v.number < 0 then -v.number else v.number);
      assert forall i :: 0 <= i < |digits| ==> IsDigit(digits[i]) && IsPlainChar(digits[i]);
    }
  }

  // ---------------------------------------------------------------- one option

  lemma Parts(key: string, mark: char, value: string, tail: string)
    ensures var s := key + [mark] + value + tail;
            && s[..|key|] == key && s[|key|] == mark
            && s[|key| + 1..] == value + tail && s[|key| + 1 + |value|..] == tail
  {
  }

  lemma SpanWhole(part: string, rest: string, p: char -> bool)
    requires All(part, p) && (rest != [] ==> !p(rest[0]))
    ensures Span(part + rest, p) == |part|
  {
    assert (part + rest)[..|part|] == part;
    SpanIs(part + rest, p, |part|);
  }

  lemma MatchPrintedOption(key: string, value: string, tail: string)
    requires key != [] && IsKeyStart(key[0]) && All(key, IsKeyChar)
    requires value != [] && All(value, IsValueChar) && (tail == [] || tail[0] == ',')
    ensures MatchOption(key + ['='] + value + tail) == Some(OptionMatch(key, value, |key| + 1 + |value|))
  {
    var s := key + ['='] + value + tail;
    Parts(key, '=', value, tail);
    assert s[1..] == key[1..] + s[|key|..];
    SpanWhole(key[1..], s[|key|..], IsKeyChar);
    assert Span(s[|key|..], IsSpace) == 0;
    assert Span(s[|key| + 1..], IsSpace) == 0 by { assert (value + tail)[0] == value[0]; }
    SpanWhole(value, tail, IsValueChar);
    assert (value + tail)[..|value|] == value;
  }

  lemma SearchPrintedOption(b: Binding, tail: string)
    requires PrintableBinding(b) && (tail == [] || tail[0] == ',')
    ensures var found := SearchOption(BindingText(b) + tail);
            && found.Some? && found.value.1 == tail
            && SplitFrom(found.value.0.key, []) == b.path && InferValue(found.value.0.value) == b.value
  {
    var key, value := JoinDot(b.path), TextOf(b.value);
    JoinedIsKey(b.path);
    SplitUndoesJoin(b.path);
    TextIsPlain(b.value);
    MatchPrintedOption(key, value, tail);
    Parts(key, '=', value, tail);
  }

  /** What the bindings do to an option object, one after the other. */
  function ApplyAll(option: Json, bs: seq<Binding>): Json
    requires forall i :: 0 <= i < |bs| ==> bs[i].path != []
    decreases |bs|
  {
    if bs == [] then option else ApplyAll(Apply(option, bs[0].path, bs[0].value), bs[1..])
  }

  /** Parsing a printed option list applies its bindings. */
  lemma {:induction false} PrintedOptionsApply(option: Json, bs: seq<Binding>)
    requires forall i :: 0 <= i < |bs| ==> PrintableBinding(bs[i])
    ensures OptionsFrom(option, BindingsText(bs)) == ApplyAll(option, bs)
    decreases |bs|
  {
    if bs != [] {
      var tail := if |bs| == 1 then [] else [','] + BindingsText(bs[1..]);
      SearchPrintedOption(bs[0], tail);
      var next := Apply(option, bs[0].path, bs[0].value);
      assert OptionsFrom(option, BindingsText(bs)) == OptionsFrom(next, tail);
      PrintedOptionsApply(next, bs[1..]);
      if |bs| > 1 {
        SkipComma(next, BindingsText(bs[1..]));
      }
    }
  }

  lemma SkipComma(option: Json, s: string)
    ensures OptionsFrom(option, [','] + s) == OptionsFrom(option, s)
  {
    assert ([','] + s)[1..] == s;
    assert MatchOption([','] + s).None?;
  }

  // ---------------------------------------------------------------- one model

  lemma {:induction false} BindingsTextIsPlain(bs: seq<Binding>)
    requires forall i :: 0 <= i < |bs| ==> PrintableBinding(bs[i])
    ensures All(BindingsText(bs), IsNotClose) && NoSpaces(BindingsText(bs))
    ensures bs != [] ==> BindingsText(bs) != []
  {
    if bs != [] {
      BindingTextIsPlain(bs[0]);
      BindingsTextIsPlain(bs[1..]);
    }
  }

  lemma BindingTextIsPlain(b: Binding)
    requires PrintableBinding(b)
    ensures BindingText(b) != [] && All(BindingText(b), IsNotClose) && NoSpaces(BindingText(b))
  {
    JoinedIsKey(b.path);
    TextIsPlain(b.value);
  }

  lemma MatchKeyUnfold(s: string, n: nat, v: nat, afterColon: string, rest: string)
    requires 0 < n < |s| && s[n] == ':' && Span(s, IsNameChar) == n && afterColon == s[n + 1..]
    requires 0 < v <= |afterColon| && Span(afterColon, IsVersionChar) == v && rest == afterColon[v..]
    ensures var g := OptionGroup(rest);
            MatchKey(s) == Some(KeyMatch(s[..n], afterColon[..v], g, n + 1 + v + (if g == [] then 0 else |g| + 2)))
  {
  }

  lemma Halves(a: string, b: string)
    ensures (a + b)[..|a|] == a && (a + b)[|a|..] == b
  {
  }

  lemma MatchKeyParts(s: string, name: string, version: string, rest: string)
    requires s == name + [':'] + version + rest
    requires name != [] && All(name, IsNameChar) && version != [] && All(version, IsVersionChar)
    requires rest != [] ==> !IsVersionChar(rest[0])
    ensures var g := OptionGroup(rest);
            MatchKey(s) == Some(KeyMatch(name, version, g, |name| + 1 + |version| + (if g == [] then 0 else |g| + 2)))
  {
    Parts(name, ':', version, rest);
    assert s == name + s[|name|..];
    SpanWhole(name, s[|name|..], IsNameChar);
    SpanWhole(version, rest, IsVersionChar);
    Halves(version, rest);
    MatchKeyUnfold(s, |name|, |version|, version + rest, rest);
  }

  lemma MatchKeyText(name: string, version: string, body: string, tail: string)
    requires name != [] && All(name, IsNameChar) && version != [] && All(version, IsVersionChar)
    requires All(body, IsNotClose) && (tail == [] || tail[0] == ' ')
    ensures var head := name + [':'] + version + GroupText(body);
            MatchKey(head + tail) == Some(KeyMatch(name, version, body, |head|))
  {
    GroupOfText(body, tail);
    Regroup(name + [':'] + version, GroupText(body), tail);
    MatchKeyParts(name + [':'] + version + GroupText(body) + tail, name, version, GroupText(body) + tail);
  }

  lemma MatchPrintedEntry(e: Entry, tail: string)
    requires PrintableEntry(e) && (tail == [] || tail[0] == ' ')
    ensures MatchKey(EntryText(e) + tail) == Some(KeyMatch(e.name, e.version, BindingsText(e.bindings), |EntryText(e)|))
  {
    BindingsTextIsPlain(e.bindings);
    MatchKeyText(e.name, e.version, BindingsText(e.bindings), tail);
  }

  lemma GroupOfText(body: string, tail: string)
    requires All(body, IsNotClose) && (tail == [] || tail[0] == ' ')
    ensures OptionGroup(GroupText(body) + tail) == body
    ensures var rest := GroupText(body) + tail; rest != [] ==> !IsVersionChar(rest[0])
  {
    if body == [] {
      assert [] + tail == tail;
    } else {
      GroupIsGreedy(GroupText(body) + tail, body);
    }
  }

  function ModelOf(e: Entry): Model
    requires PrintableEntry(e)
  {
    Model(e.name, e.version, ApplyAll(Obj(map[]), e.bindings))
  }

  function ModelsOf(es: seq<Entry>): (models: seq<Model>)
    requires forall i :: 0 <= i < |es| ==> PrintableEntry(es[i])
    ensures |models| == |es| && forall i :: 0 <= i < |es| ==> models[i] == ModelOf(es[i])
  {
    if es == [] then [] else [ModelOf(es[0])] + ModelsOf(es[1..])
  }

  lemma {:induction false} PrintedModelsAreFound(es: seq<Entry>)
    requires forall i :: 0 <= i < |es| ==> PrintableEntry(es[i])
    ensures ModelsIn(ListText(es)) == Some(ModelsOf(es))
    decreases |es|
  {
    if es != [] {
      var e, rest := es[0], es[1..];
      var tail := if |es| == 1 then [] else [' '] + ListText(rest);
      MatchPrintedEntry(e, tail);
      assert (EntryText(e) + tail)[|EntryText(e)|..] == tail;
      PrintedOptionsApply(Obj(map[]), e.bindings);
      PrintedModelsAreFound(rest);
      if |es| > 1 {
        ListIsTidy(rest);
        SkipSpace(ListText(rest));
      }
    }
  }

  lemma SkipSpace(s: string)
    requires s != []
    ensures ModelsIn([' '] + s) == ModelsIn(s)
  {
    assert ([' '] + s)[1..] == s;
    assert MatchKey([' '] + s).None?;
  }

  // ---------------------------------------------------------------- white space

  /** White space is single spaces, each followed by something else. */
  predicate SinglySpaced(s: string) {
    forall i :: 0 <= i < |s| && IsSpace(s[i]) ==> s[i] == ' ' && i + 1 < |s| && !IsSpace(s[i + 1])
  }

  lemma {:induction false} CollapseKeeps(s: string)
    requires SinglySpaced(s)
    ensures Collapse(s) == s
  {
    if s != [] {
      assert SinglySpaced(s[1..]) by {
        assert forall i :: 0 <= i < |s[1..]| ==> s[1..][i] == s[i + 1];
      }
      CollapseKeeps(s[1..]);
      assert s == [s[0]] + s[1..];
      if IsSpace(s[0]) {
        assert Span(s[1..], IsSpace) == 0;
      }
    }
  }

  lemma NormalizedKeeps(s: string)
    requires SinglySpaced(s) && (s != [] ==> !IsSpace(s[0]))
    ensures Normalized(s) == s
  {
    CollapseKeeps(s);
    assert Span(s, IsSpace) == 0;
    assert s[0..] == s;
    assert s != [] ==> !IsSpace(s[|s| - 1]);
  }

  predicate NoSpaces(s: string) {
    forall i :: 0 <= i < |s| ==> !IsSpace(s[i])
  }

  lemma EntryHasNoSpaces(e: Entry)
    requires PrintableEntry(e)
    ensures EntryText(e) != [] && NoSpaces(EntryText(e))
  {
    BindingsTextIsPlain(e.bindings);
    NameHasNoSpaces(e.name);
    NameHasNoSpaces(e.version);
  }

  lemma NameHasNoSpaces(s: string)
    requires All(s, IsVersionChar) || All(s, IsNameChar)
    ensures NoSpaces(s)
  {
  }

  lemma {:induction false} ListIsTidy(es: seq<Entry>)
    requires forall i :: 0 <= i < |es| ==> PrintableEntry(es[i])
    ensures SinglySpaced(ListText(es))
    ensures es != [] ==> ListText(es) != [] && !IsSpace(ListText(es)[0])
    decreases |es|
  {
    if es != [] {
      EntryHasNoSpaces(es[0]);
      if |es| > 1 {
        ListIsTidy(es[1..]);
        SpaceBetween(EntryText(es[0]), ListText(es[1..]));
      }
    }
  }

  lemma SpaceBetween(a: string, b: string)
    requires NoSpaces(a) && SinglySpaced(b) && b != [] && !IsSpace(b[0])
    ensures SinglySpaced(a + ([' '] + b))
  {
    var s := a + ([' '] + b);
    assert s[..|a|] == a;
    assert forall i :: 0 <= i < |a| ==> s[i] == s[..|a|][i];
    forall i | |a| <= i < |s| && IsSpace(s[i])
      ensures s[i] == ' ' && i + 1 < |s| && !IsSpace(s[i + 1])
    {
      if i > |a| {
        assert s[i] == b[i - |a| - 1];
        assert s[i + 1] == b[i - |a|];
      } else {
        assert s[i + 1] == b[0];
      }
    }
  }

  /** Parsing a printed list gives back every model, with its options applied to an empty object. */
  lemma PrintedListParses(es: seq<Entry>)
    requires forall i :: 0 <= i < |es| ==> PrintableEntry(es[i])
    ensures ModelsParsed(ListText(es)) == Some(ModelsOf(es))
  {
    ListIsTidy(es);
    NormalizedKeeps(ListText(es));
    PrintedModelsAreFound(es);
  }
}
