/** Every option tree with printable leaves can be written as a list of bindings. */
module OptionListings {
  import opened Basics
  import opened NestedOption
  import opened Extensions
  import opened KeyScanner
  import opened ModelKeys
  import opened ModelKeysRoundTrip
  import opened OptionTrees

  predicate IsKeyPart(k: string) {
    k != [] && All(k, IsKeyStart)
  }

  /** Objects with plain keys, down to printable scalars. */
  ghost predicate PrintableBelow(t: Json) {
    if t.Obj? then forall k :: k in t.fields ==> IsKeyPart(k) && PrintableBelow(t.fields[k])
    else PrintableValue(t)
  }

  /** An array of distinct printable strings. */
  ghost predicate PrintableArray(t: Json, texts: seq<string>) {
    && t == Arr(Strings(texts)) && texts != []
    && (forall i, j :: 0 <= i < j < |texts| ==> texts[i] != texts[j])
    && forall i :: 0 <= i < |texts| ==> PrintableValue(Str(texts[i]))
  }

  /**
   * What the option syntax can express: below the root only objects and scalars; at the root also an array of extension
   * paths, and no string under the two extension keys.
   */
  ghost predicate PrintableTree(t: Json) {
    && t.Obj? && Full(t)
    && (forall k :: k in t.fields ==> IsKeyPart(k))
    && (forall k :: k in t.fields && !(k == EXTENSIONS_KEY && t.fields[k].Arr?) ==> PrintableBelow(t.fields[k]))
    && !Child(t, EXTENSIONS_KEY).Str? && !Child(t, LEGACY_EXTENSION_KEY).Str?
    && (Child(t, EXTENSIONS_KEY).Arr? ==> exists texts :: PrintableArray(Child(t, EXTENSIONS_KEY), texts))
  }

  /** `bs` holds exactly the leaves of `t`, with paths of plain keys. */
  ghost predicate LeafList(bs: seq<Binding>, t: Json) {
    && (forall i :: 0 <= i < |bs| ==> IsLeaf(t, bs[i].path, bs[i].value) && PrintableValue(bs[i].value))
    && (forall i, j :: 0 <= i < |bs| && 0 <= j < |bs[i].path| ==> IsKeyPart(bs[i].path[j]))
    && (forall q, v :: IsLeaf(t, q, v) ==> Binding(q, v) in bs)
  }

  /** The bindings one level further out. */
  function Under(k: string, bs: seq<Binding>): (outer: seq<Binding>)
    ensures |outer| == |bs|
    ensures forall i :: 0 <= i < |bs| ==> outer[i] == Binding([k] + bs[i].path, bs[i].value)
  {
    seq(|bs|, i requires 0 <= i < |bs| => Binding([k] + bs[i].path, bs[i].value))
  }

  /** `bs` holds exactly the leaves of `t` under the given keys. */
  ghost predicate LeafListOf(bs: seq<Binding>, t: Json, keys: set<string>)
    requires t.Obj?
  {
    && (forall i :: 0 <= i < |bs| ==>
          IsLeaf(t, bs[i].path, bs[i].value) && PrintableValue(bs[i].value) && bs[i].path != [] && bs[i].path[0] in keys)
    && (forall i, j :: 0 <= i < |bs| && 0 <= j < |bs[i].path| ==> IsKeyPart(bs[i].path[j]))
    && (forall q, v :: IsLeaf(t, q, v) && q != [] && q[0] in keys ==> Binding(q, v) in bs)
  }

  lemma AddKey(bs: seq<Binding>, t: Json, keys: set<string>, k: string, sub: seq<Binding>)
    requires t.Obj? && k in t.fields && IsKeyPart(k)
    requires LeafListOf(bs, t, keys) && LeafList(sub, t.fields[k])
    ensures LeafListOf(bs + Under(k, sub), t, keys + {k})
  {
    var all := bs + Under(k, sub);
    forall i | |bs| <= i < |all|
      ensures IsLeaf(t, all[i].path, all[i].value)
      ensures forall j :: 0 <= j < |all[i].path| ==> IsKeyPart(all[i].path[j])
    {
      var b := sub[i - |bs|];
      assert all[i] == Binding([k] + b.path, b.value);
      LeafBelow(t, k, b.path, b.value);
    }
    forall q, v | IsLeaf(t, q, v) && q != [] && q[0] in keys + {k}
      ensures Binding(q, v) in all
    {
      if q[0] == k {
        assert q == [k] + q[1..];
        LeafBelow(t, k, q[1..], v);
        var i :| 0 <= i < |sub| && sub[i] == Binding(q[1..], v);
        assert Under(k, sub)[i] == Binding(q, v);
      }
    }
  }

  lemma {:induction false} ListUnder(t: Json, keys: set<string>) returns (bs: seq<Binding>)
    requires t.Obj? && keys <= t.fields.Keys
    requires forall k :: k in keys ==> IsKeyPart(k) && PrintableBelow(t.fields[k])
    ensures LeafListOf(bs, t, keys)
    decreases t, 0
  {
    bs := [];
    var todo := keys;
    while todo != {}
      invariant todo <= keys
      invariant LeafListOf(bs, t, keys - todo)
      decreases |todo|
    {
      var k :| k in todo;
      var sub := ListLeaves(t.fields[k]);
      AddKey(bs, t, keys - todo, k, sub);
      assert keys - (todo - {k}) == keys - todo + {k};
      bs := bs + Under(k, sub);
      todo := todo - {k};
    }
    assert keys - todo == keys;
  }

  lemma {:induction false} ListLeaves(t: Json) returns (bs: seq<Binding>)
    requires PrintableBelow(t)
    ensures LeafList(bs, t)
    decreases t, 1
  {
    if t.Obj? {
      bs := ListUnder(t, t.fields.Keys);
      forall q, v | IsLeaf(t, q, v) ensures Binding(q, v) in bs {
        assert q != [] && q[0] in t.fields.Keys;
      }
    } else {
      bs := [Binding([], t)];
      forall q, v | IsLeaf(t, q, v) ensures Binding(q, v) in bs {
        assert q == [];
      }
    }
  }

  // ---------------------------------------------------------------- the extension paths

  function ExtBindings(texts: seq<string>): (bs: seq<Binding>)
    ensures |bs| == |texts|
    ensures forall i :: 0 <= i < |texts| ==> bs[i] == Binding([EXTENSIONS_KEY], Str(texts[i]))
  {
    seq(|texts|, i requires 0 <= i < |texts| => Binding([EXTENSIONS_KEY], Str(texts[i])))
  }

  lemma {:induction false} NoExtTexts(bs: seq<Binding>)
    requires forall i :: 0 <= i < |bs| ==> !IsExt(bs[i])
    ensures ExtTexts(bs) == []
  {
    if bs != [] {
      NoExtTexts(bs[..|bs| - 1]);
    }
  }

  lemma {:induction false} ExtTextsOf(plain: seq<Binding>, texts: seq<string>)
    requires forall i :: 0 <= i < |plain| ==> !IsExt(plain[i])
    ensures ExtTexts(plain + ExtBindings(texts)) == texts
    decreases |texts|
  {
    var all := plain + ExtBindings(texts);
    if texts == [] {
      assert all == plain;
      NoExtTexts(plain);
    } else {
      var n := |texts| - 1;
      assert all[..|all| - 1] == plain + ExtBindings(texts[..n]);
      ExtTextsOf(plain, texts[..n]);
      assert texts == texts[..n] + [texts[n]];
    }
  }

  /** Leaves under other keys are no extension entries. */
  lemma LeavesArePlain(bs: seq<Binding>, t: Json, keys: set<string>)
    requires PrintableTree(t) && LeafListOf(bs, t, keys)
    ensures forall i :: 0 <= i < |bs| ==> !IsExt(bs[i])
  {
    forall i | 0 <= i < |bs| ensures !IsExt(bs[i]) {
      LookupChild(t, EXTENSIONS_KEY);
      LookupChild(t, LEGACY_EXTENSION_KEY);
    }
  }

  lemma LeafOfArray(t: Json, k: string, q: Path, v: Json)
    requires t.Obj? && Child(t, k).Arr? && IsLeaf(t, q, v) && q != [] && q[0] == k
    ensures q == [k]
  {
    assert q == [k] + q[1..];
    LeafBelow(t, k, q[1..], v);
    assert q[1..] == [];
  }

  lemma PlainIsListed(plain: seq<Binding>, more: seq<Binding>, q: Path, v: Json)
    requires Binding(q, v) in plain && forall i :: 0 <= i < |plain| ==> !IsExt(plain[i])
    ensures Listed(plain + more, q, v)
  {
    var i :| 0 <= i < |plain| && plain[i] == Binding(q, v);
    assert (plain + more)[i] == Binding(q, v);
  }

  /** The plain bindings of a tree, and those of its extension array, list the tree. */
  lemma PlainAndExtensions(t: Json, plain: seq<Binding>, texts: seq<string>)
    requires PrintableTree(t)
    requires var hasArray := Child(t, EXTENSIONS_KEY).Arr?;
             && LeafListOf(plain, t, if hasArray then t.fields.Keys - {EXTENSIONS_KEY} else t.fields.Keys)
             && (if hasArray then PrintableArray(Child(t, EXTENSIONS_KEY), texts) else texts == [])
    ensures Lists(plain + ExtBindings(texts), t)
  {
    var bs := plain + ExtBindings(texts);
    var hasArray := Child(t, EXTENSIONS_KEY).Arr?;
    LeavesArePlain(plain, t, if hasArray then t.fields.Keys - {EXTENSIONS_KEY} else t.fields.Keys);
    ExtTextsOf(plain, texts);
    DedupOfDistinct(texts);
    LookupChild(t, EXTENSIONS_KEY);
    forall q, v | IsLeaf(t, q, v)
      ensures Listed(bs, q, v) || (q == [EXTENSIONS_KEY] && texts != [])
    {
      if hasArray && q[0] == EXTENSIONS_KEY {
        LeafOfArray(t, EXTENSIONS_KEY, q, v);
      } else {
        PlainIsListed(plain, ExtBindings(texts), q, v);
      }
    }
  }

  /** Every printable tree has a list of printable bindings. */
  lemma ListTree(t: Json) returns (bs: seq<Binding>)
    requires PrintableTree(t)
    ensures Lists(bs, t) && forall i :: 0 <= i < |bs| ==> PrintableBinding(bs[i])
  {
    var hasArray := Child(t, EXTENSIONS_KEY).Arr?;
    var plain := ListUnder(t, if hasArray then t.fields.Keys - {EXTENSIONS_KEY} else t.fields.Keys);
    var texts: seq<string> := [];
    if hasArray {
      texts :| PrintableArray(Child(t, EXTENSIONS_KEY), texts);
      assert IsKeyPart(EXTENSIONS_KEY);
    }
    PlainAndExtensions(t, plain, texts);
    bs := plain + ExtBindings(texts);
    forall i | 0 <= i < |bs| ensures PrintableBinding(bs[i]) {
      if i >= |plain| { assert bs[i] == ExtBindings(texts)[i - |plain|]; }
    }
  }

  ghost predicate PrintableModel(m: Model) {
    && m.name != [] && All(m.name, IsNameChar) && m.version != [] && All(m.version, IsVersionChar)
    && PrintableTree(m.option)
  }

  /** Every list of printable models has a text, and its text parses back to the list. */
  lemma EveryModelListHasText(models: seq<Model>) returns (text: string)
    requires forall i :: 0 <= i < |models| ==> PrintableModel(models[i])
    ensures ModelsParsed(text) == Some(models)
  {
    var es: seq<Entry> := [];
    for n := 0 to |models|
      invariant |es| == n
      invariant forall i :: 0 <= i < n ==> PrintableEntry(es[i])
      invariant forall i :: 0 <= i < n ==>
                  && es[i].name == models[i].name && es[i].version == models[i].version
                  && Lists(es[i].bindings, models[i].option)
    {
      var bs := ListTree(models[n].option);
      es := es + [Entry(models[n].name, models[n].version, bs)];
    }
    ModelListRoundTrip(es, models);
    text := ListText(es);
  }
}
