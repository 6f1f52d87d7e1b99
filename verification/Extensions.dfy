/** Accumulating extension paths without duplicates, in the two places the server does it. */
module Extensions {
  import opened Basics
  import opened NestedOption

  const EXTENSIONS_KEY := "extensions"
  const LEGACY_EXTENSION_KEY := "ortextensions_path"

  // ---------------------------------------------------------------- first occurrences

  /** `paths` without later repetitions. */
  function Dedup(paths: seq<string>): seq<string>
  {
    if paths == [] then []
    else
      var n := |paths| - 1;
      if paths[n] in paths[..n] then Dedup(paths[..n]) else Dedup(paths[..n]) + [paths[n]]
  }

  function FirstIndex(paths: seq<string>, p: string): (i: nat)
    requires p in paths
    ensures i < |paths| && paths[i] == p && p !in paths[..i]
  {
    if paths[0] == p then 0
    else
      assert paths == [paths[0]] + paths[1..];
      var i := 1 + FirstIndex(paths[1..], p);
      assert paths[..i] == [paths[0]] + paths[1..][..i - 1];
      i
  }

  lemma {:induction false} FirstIndexIs(paths: seq<string>, p: string, i: nat)
    requires i < |paths| && paths[i] == p && p !in paths[..i]
    ensures FirstIndex(paths, p) == i
  {
    if i > 0 {
      assert paths[0] == paths[..i][0];
      assert paths[..i] == [paths[0]] + paths[1..][..i - 1];
      FirstIndexIs(paths[1..], p, i - 1);
    }
  }

  lemma {:induction false} DedupKeepsElements(paths: seq<string>)
    ensures forall p :: p in Dedup(paths) <==> p in paths
  {
    if paths != [] {
      var n := |paths| - 1;
      DedupKeepsElements(paths[..n]);
      assert paths == paths[..n] + [paths[n]];
    }
  }

  /** The kept paths stand in the order of their first occurrences; in particular none is kept twice. */
  lemma {:induction false} DedupKeepsFirstOrder(paths: seq<string>, i: nat, j: nat)
    requires i < j < |Dedup(paths)|
    ensures Dedup(paths)[i] in paths && Dedup(paths)[j] in paths
    ensures FirstIndex(paths, Dedup(paths)[i]) < FirstIndex(paths, Dedup(paths)[j])
  {
    var n := |paths| - 1;
    var front, kept := paths[..n], Dedup(paths[..n]);
    DedupKeepsElements(front);
    assert kept[i] in kept;
    FirstIndexLonger(paths, kept[i]);
    if j < |kept| {
      DedupKeepsFirstOrder(front, i, j);
      FirstIndexLonger(paths, kept[j]);
    } else {
      FirstIndexIs(paths, paths[n], n);
    }
  }

  lemma FirstIndexLonger(paths: seq<string>, p: string)
    requires paths != [] && p in paths[..|paths| - 1]
    ensures p in paths && FirstIndex(paths, p) == FirstIndex(paths[..|paths| - 1], p)
  {
    var n := |paths| - 1;
    var i := FirstIndex(paths[..n], p);
    assert paths[..i] == paths[..n][..i];
    FirstIndexIs(paths, p, i);
  }

  lemma {:induction false} DedupOfDistinct(paths: seq<string>)
    requires forall i, j :: 0 <= i < j < |paths| ==> paths[i] != paths[j]
    ensures Dedup(paths) == paths
  {
    if paths != [] {
      var n := |paths| - 1;
      DedupOfDistinct(paths[..n]);
    }
  }

  lemma DedupIsIdempotent(paths: seq<string>)
    ensures Dedup(Dedup(paths)) == Dedup(paths)
  {
    forall i, j | 0 <= i < j < |Dedup(paths)|
      ensures Dedup(paths)[i] != Dedup(paths)[j]
    {
      DedupKeepsFirstOrder(paths, i, j);
    }
    DedupOfDistinct(Dedup(paths));
  }

  // ---------------------------------------------------------------- arrays of strings

  function Strings(paths: seq<string>): (items: seq<Json>)
    ensures |items| == |paths|
    ensures forall i :: 0 <= i < |paths| ==> items[i] == Str(paths[i])
  {
    seq(|paths|, i requires 0 <= i < |paths| => Str(paths[i]))
  }

  /** The texts of the string elements of an array. */
  function Texts(items: seq<Json>): seq<string>
  {
    if items == [] then []
    else
      var n := |items| - 1;
      Texts(items[..n]) + (if items[n].Str? then [items[n].text] else [])
  }

  lemma {:induction false} TextsOfStrings(paths: seq<string>)
    ensures Texts(Strings(paths)) == paths
  {
    if paths != [] {
      var n := |paths| - 1;
      assert Strings(paths)[..n] == Strings(paths[..n]);
      TextsOfStrings(paths[..n]);
      assert paths == paths[..n] + [paths[n]];
    }
  }

  // ---------------------------------------------------------------- append_extension

  /** The array that `option` holds under the extensions key, empty if there is none. */
  function ExtensionItems(option: Json): seq<Json> {
    if Child(option, EXTENSIONS_KEY).Arr? then Child(option, EXTENSIONS_KEY).items else []
  }

  /** `option` with `path` among its extensions. */
  function WithExtension(option: Json, path: string): Json {
    var items := ExtensionItems(option);
    SetAt(option, [EXTENSIONS_KEY], Arr(if Str(path) in items then items else items + [Str(path)]))
  }

  method AppendExtension(option: OptionCell, path: string)
    requires option.value.Obj?
    modifies option
    ensures option.value == WithExtension(old(option.value), path)
    ensures var items := Declared(old(option.value));
            option.value == Obj(old(option.value).fields["extensions" :=
                                  Arr(if Str(path) in items then items else items + [Str(path)])])
  {
    if EXTENSIONS_KEY !in option.value.fields || !option.value.fields[EXTENSIONS_KEY].Arr? {
      option.value := Obj(option.value.fields[EXTENSIONS_KEY := Arr([])]);
    }
    var arr := option.value.fields[EXTENSIONS_KEY].items;
    for i := 0 to |arr|
      invariant option.value == SetAt(old(option.value), [EXTENSIONS_KEY], Arr(ExtensionItems(old(option.value))))
      invariant Str(path) !in arr[..i]
    {
      if arr[i].Str? && arr[i].text == path {
        assert Str(path) in arr;
        return;
      }
    }
    option.value := Obj(option.value.fields[EXTENSIONS_KEY := Arr(arr + [Str(path)])]);
  }

  function AppendAll(option: Json, paths: seq<string>): Json
  {
    if paths == [] then option
    else WithExtension(AppendAll(option, paths[..|paths| - 1]), paths[|paths| - 1])
  }

  // ---------------------------------------------------------------- collect_extensions

  /** The paths a session option names, the legacy key last, repetitions included. */
  function NamedPaths(option: Json): seq<string> {
    Texts(ExtensionItems(option))
    + (if Child(option, LEGACY_EXTENSION_KEY).Str? then [Child(option, LEGACY_EXTENSION_KEY).text] else [])
  }

  method Add(result: Vector<Json>, ghost paths: seq<string>, path: string)
    requires result.items == Strings(Dedup(paths))
    modifies result
    ensures result.items == Strings(Dedup(paths + [path]))
  {
    DedupKeepsElements(paths);
    assert (paths + [path])[..|paths|] == paths;
    for i := 0 to |result.items|
      invariant result.items == Strings(Dedup(paths))
      invariant path !in Dedup(paths)[..i]
    {
      if result.items[i].Str? && result.items[i].text == path {
        assert Dedup(paths)[i] == path;
        return;
      }
    }
    assert Strings(Dedup(paths)) + [Str(path)] == Strings(Dedup(paths) + [path]);
    result.PushBack(Str(path));
  }

  // ---------------------------------------------------------------- what is collected

  /** The array under the extensions key. */
  function Declared(option: Json): seq<Json> {
    if option.Obj? && "extensions" in option.fields && option.fields["extensions"].Arr?
    then option.fields["extensions"].items
    else []
  }

  /** `p` is a string in the array, or the value under the legacy key. */
  predicate IsNamed(option: Json, p: string) {
    || Str(p) in Declared(option)
    || (option.Obj? && "ortextensions_path" in option.fields && option.fields["ortextensions_path"] == Str(p))
  }

  /**
   * The distinct named paths and nothing else: those of the array in the order of their first occurrences there, and a
   * legacy path that is not among them last.
   */
  ghost predicate IsCollected(option: Json, items: seq<Json>) {
    && (forall i :: 0 <= i < |items| ==> items[i].Str? && IsNamed(option, items[i].text))
    && (forall p :: IsNamed(option, p) ==> Str(p) in items)
    && (forall i, j :: 0 <= i < j < |items| ==> items[i] != items[j])
    && (forall i, j :: 0 <= i < j < |items| && items[j] in Declared(option) ==>
          OccursBefore(Declared(option), items[i], items[j]))
    && (forall i :: 0 <= i < |items| && items[i] !in Declared(option) ==> i == |items| - 1)
  }

  /** `a` occurs before the first `b`. */
  ghost predicate OccursBefore(xs: seq<Json>, a: Json, b: Json) {
    exists k :: 0 <= k < |xs| && xs[k] == a && b !in xs[..k + 1]
  }

  lemma {:induction false} TextsOfConcat(xs: seq<Json>, ys: seq<Json>)
    ensures Texts(xs + ys) == Texts(xs) + Texts(ys)
    decreases |ys|
  {
    if ys == [] {
      assert xs + ys == xs;
    } else {
      var n := |ys| - 1;
      assert (xs + ys)[..|xs + ys| - 1] == xs + ys[..n] && (xs + ys)[|xs + ys| - 1] == ys[n];
      TextsOfConcat(xs, ys[..n]);
      Regroup(Texts(xs), Texts(ys[..n]), if ys[n].Str? then [ys[n].text] else []);
    }
  }

  lemma {:induction false} TextsHoldStrings(xs: seq<Json>, p: string)
    ensures p in Texts(xs) <==> Str(p) in xs
  {
    if xs != [] {
      var n := |xs| - 1;
      TextsHoldStrings(xs[..n], p);
      assert xs == xs[..n] + [xs[n]];
    }
  }

  lemma NamedPathsAreNamed(option: Json, p: string)
    ensures p in NamedPaths(option) <==> IsNamed(option, p)
    ensures ExtensionItems(option) == Declared(option)
  {
    TextsHoldStrings(ExtensionItems(option), p);
  }

  lemma {:induction false} FirstOccurrence(xs: seq<Json>, x: Json) returns (n: nat)
    requires x in xs
    ensures n < |xs| && xs[n] == x && x !in xs[..n]
  {
    if xs[0] == x {
      n := 0;
    } else {
      assert xs == [xs[0]] + xs[1..];
      var m := FirstOccurrence(xs[1..], x);
      n := m + 1;
      assert xs[..n] == [xs[0]] + xs[1..][..m];
    }
  }

  /** The strings of an array come in the order of the array. */
  lemma OrderOfTexts(xs: seq<Json>, more: seq<string>, a: string, b: string)
    requires Str(b) in xs && a in Texts(xs) + more && b in Texts(xs) + more
    requires FirstIndex(Texts(xs) + more, a) < FirstIndex(Texts(xs) + more, b)
    ensures OccursBefore(xs, Str(a), Str(b))
  {
    var n := FirstOccurrence(xs, Str(b));
    var front, back := xs[..n], xs[n..];
    assert xs == front + back;
    TextsOfConcat(front, back);
    TextsHoldStrings(front, b);
    FirstText(front, back, more, b);
    FoundInFront(Texts(front), Texts(back) + more, a);
    TextsHoldStrings(front, a);
    var k :| 0 <= k < n && front[k] == Str(a);
    assert xs[k] == Str(a) && Str(b) !in xs[..k + 1] by {
      assert forall j :: 0 <= j < k + 1 ==> xs[..k + 1][j] == front[j];
    }
  }

  lemma FirstText(front: seq<Json>, back: seq<Json>, more: seq<string>, b: string)
    requires back != [] && back[0] == Str(b) && b !in Texts(front)
    ensures var all := Texts(front) + Texts(back) + more;
            b in all && FirstIndex(all, b) == |Texts(front)| && all == Texts(front) + (Texts(back) + more)
  {
    var tail := TextsOfFirst(back, b);
    FirstInConcat(Texts(front), tail, more, b);
  }

  lemma TextsOfFirst(xs: seq<Json>, b: string) returns (tail: seq<string>)
    requires xs != [] && xs[0] == Str(b)
    ensures Texts(xs) == [b] + tail
  {
    tail := Texts(xs[1..]);
    TextsOfConcat([xs[0]], xs[1..]);
    assert xs == [xs[0]] + xs[1..];
    assert Texts([xs[0]]) == [b] by { assert [xs[0]][..0] == []; }
  }

  lemma FirstInConcat(front: seq<string>, tail: seq<string>, more: seq<string>, b: string)
    requires b !in front
    ensures var all := front + ([b] + tail) + more;
            b in all && FirstIndex(all, b) == |front| && all == front + (([b] + tail) + more)
  {
    var all := front + ([b] + tail) + more;
    Regroup(front, [b] + tail, more);
    AtBoundary(all, front, b);
  }

  lemma AtBoundary(all: seq<string>, front: seq<string>, b: string)
    requires b !in front && |front| < |all| && all[..|front|] == front && all[|front|] == b
    ensures b in all && FirstIndex(all, b) == |front|
  {
    FirstIndexIs(all, b, |front|);
  }

  lemma FoundInFront(front: seq<string>, back: seq<string>, a: string)
    requires a in front + back && FirstIndex(front + back, a) < |front|
    ensures a in front
  {
    assert (front + back)[FirstIndex(front + back, a)] == front[FirstIndex(front + back, a)];
  }

  lemma FirstIndexOfLast(front: seq<string>, a: string)
    requires a !in front
    ensures a in front + [a] && FirstIndex(front + [a], a) == |front|
  {
    assert (front + [a])[..|front|] == front;
    FirstIndexIs(front + [a], a, |front|);
  }

  lemma CollectedExactly(option: Json)
    ensures IsCollected(option, Strings(Dedup(NamedPaths(option))))
  {
    var kept := Dedup(NamedPaths(option));
    var items := Strings(kept);
    DedupKeepsElements(NamedPaths(option));
    forall i | 0 <= i < |items| ensures IsNamed(option, items[i].text) {
      assert kept[i] in kept;
      NamedPathsAreNamed(option, kept[i]);
    }
    forall p | IsNamed(option, p) ensures Str(p) in items {
      NamedPathsAreNamed(option, p);
      var i :| 0 <= i < |kept| && kept[i] == p;
      assert items[i] == Str(p);
    }
    forall i, j | 0 <= i < j < |items|
      ensures items[i] != items[j]
      ensures items[j] in Declared(option) ==> OccursBefore(Declared(option), items[i], items[j])
    {
      DedupKeepsFirstOrder(NamedPaths(option), i, j);
      if items[j] in Declared(option) {
        OrderOfKept(option, i, j);
      }
    }
    forall i | 0 <= i < |items| && items[i] !in Declared(option) ensures i == |items| - 1 {
      LegacyIsLast(option, i);
    }
  }

  lemma OrderOfKept(option: Json, i: nat, j: nat)
    requires i < j < |Dedup(NamedPaths(option))| && Str(Dedup(NamedPaths(option))[j]) in Declared(option)
    ensures OccursBefore(Declared(option), Str(Dedup(NamedPaths(option))[i]), Str(Dedup(NamedPaths(option))[j]))
  {
    var paths := NamedPaths(option);
    DedupKeepsFirstOrder(paths, i, j);
    NamedPathsAreNamed(option, Dedup(paths)[i]);
    var legacy := paths[|Texts(Declared(option))|..];
    assert paths == Texts(Declared(option)) + legacy;
    OrderOfTexts(Declared(option), legacy, Dedup(paths)[i], Dedup(paths)[j]);
  }

  lemma LegacyIsLast(option: Json, i: nat)
    requires i < |Dedup(NamedPaths(option))| && Str(Dedup(NamedPaths(option))[i]) !in Declared(option)
    ensures i == |Dedup(NamedPaths(option))| - 1
  {
    var paths, kept := NamedPaths(option), Dedup(NamedPaths(option));
    DedupKeepsElements(paths);
    assert kept[i] in kept;
    NamedPathsAreNamed(option, kept[i]);
    TextsHoldStrings(Declared(option), kept[i]);
    FirstIndexOfLast(Texts(Declared(option)), kept[i]);
    assert paths == Texts(Declared(option)) + [kept[i]];
    if i < |kept| - 1 {
      DedupKeepsFirstOrder(paths, i, i + 1);
    }
  }

  method CollectExtensions(option: Json) returns (result: Json)
    ensures result == Arr(Strings(Dedup(NamedPaths(option))))
    ensures IsCollected(option, result.items) && (!option.Obj? ==> result.items == [])
  {
    var items := new Vector<Json>();
    if !option.Obj? {
      CollectedExactly(option);
      return Arr(items.items);
    }
    ghost var paths: seq<string> := [];
    if EXTENSIONS_KEY in option.fields && option.fields[EXTENSIONS_KEY].Arr? {
      var arr := option.fields[EXTENSIONS_KEY].items;
      for i := 0 to |arr|
        invariant paths == Texts(arr[..i]) && items.items == Strings(Dedup(paths))
      {
        assert arr[..i + 1][..i] == arr[..i];
        if arr[i].Str? {
          Add(items, paths, arr[i].text);
          paths := paths + [arr[i].text];
        }
      }
      assert arr[..|arr|] == arr;
    }
    if LEGACY_EXTENSION_KEY in option.fields && option.fields[LEGACY_EXTENSION_KEY].Str? {
      Add(items, paths, option.fields[LEGACY_EXTENSION_KEY].text);
      paths := paths + [option.fields[LEGACY_EXTENSION_KEY].text];
    }
    assert paths == NamedPaths(option);
    result := Arr(items.items);
    CollectedExactly(option);
  }

  // ---------------------------------------------------------------- agreement

  /** One more path, on an option that holds the distinct ones of `paths`. */
  lemma OneMoreExtension(option: Json, paths: seq<string>, path: string)
    requires ExtensionItems(option) == Strings(Dedup(paths))
    ensures WithExtension(option, path) == SetAt(option, [EXTENSIONS_KEY], Arr(Strings(Dedup(paths + [path]))))
  {
    DedupKeepsElements(paths);
    var kept := Dedup(paths);
    assert (paths + [path])[..|paths|] == paths;
    if path in kept {
      var i :| 0 <= i < |kept| && kept[i] == path;
      assert Strings(kept)[i] == Str(path);
    }
    assert Strings(kept) + [Str(path)] == Strings(kept + [path]);
  }

  lemma {:induction false} AppendedItems(paths: seq<string>)
    ensures AppendAll(Obj(map[]), paths) ==
            if paths == [] then Obj(map[]) else Obj(map[EXTENSIONS_KEY := Arr(Strings(Dedup(paths)))])
  {
    if paths != [] {
      var n := |paths| - 1;
      AppendedItems(paths[..n]);
      OneMoreExtension(AppendAll(Obj(map[]), paths[..n]), paths[..n], paths[n]);
      assert paths[..n] + [paths[n]] == paths;
    }
  }

  /** Appending path after path gives the array that collecting them all at once gives. */
  lemma AppendAgreesWithCollect(paths: seq<string>)
    ensures var given := Obj(map[EXTENSIONS_KEY := Arr(Strings(paths))]);
            ExtensionItems(AppendAll(Obj(map[]), paths)) == Strings(Dedup(NamedPaths(given)))
  {
    AppendedItems(paths);
    TextsOfStrings(paths);
    NoLegacy(Arr(Strings(paths)));
    assert paths + [] == paths;
  }

  lemma NoLegacy(v: Json)
    ensures Child(Obj(map[EXTENSIONS_KEY := v]), LEGACY_EXTENSION_KEY) == Null
  {
    assert EXTENSIONS_KEY != LEGACY_EXTENSION_KEY by { assert |EXTENSIONS_KEY| != |LEGACY_EXTENSION_KEY|; }
  }

  /** Collecting what was collected changes nothing. */
  lemma CollectIsIdempotent(option: Json)
    ensures var collected := Strings(Dedup(NamedPaths(option)));
            Strings(Dedup(NamedPaths(Obj(map[EXTENSIONS_KEY := Arr(collected)])))) == collected
  {
    var kept := Dedup(NamedPaths(option));
    TextsOfStrings(kept);
    NoLegacy(Arr(Strings(kept)));
    assert kept + [] == kept;
    DedupIsIdempotent(NamedPaths(option));
  }
}
