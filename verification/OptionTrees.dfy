/** Option trees as lists of bindings: applying the bindings of a tree, in any order, rebuilds the tree. */
module OptionTrees {
  import opened Basics
  import opened NestedOption
  import opened Extensions
  import opened ModelKeys
  import opened ModelKeysRoundTrip

  predicate IsExt(b: Binding) {
    IsExtensionEntry(b.path, b.value)
  }

  /** The extension paths among the bindings, in order. */
  function ExtTexts(bs: seq<Binding>): seq<string>
  {
    if bs == [] then []
    else
      var n := |bs| - 1;
      ExtTexts(bs[..n]) + (if IsExt(bs[n]) then [bs[n].value.text] else [])
  }

  ghost predicate Listed(bs: seq<Binding>, q: Path, v: Json) {
    exists i :: 0 <= i < |bs| && bs[i] == Binding(q, v) && !IsExt(bs[i])
  }

  /** No object inside `t` is empty. */
  ghost predicate Full(t: Json) {
    t.Obj? ==> forall k :: k in t.fields ==> t.fields[k] != Obj(map[]) && Full(t.fields[k])
  }

  ghost predicate IsLeaf(t: Json, q: Path, v: Json) {
    Lookup(t, q) == Some(v) && !v.Obj?
  }

  ghost predicate PlainAreLeaves(bs: seq<Binding>, t: Json) {
    forall i :: 0 <= i < |bs| && !IsExt(bs[i]) ==> IsLeaf(t, bs[i].path, bs[i].value)
  }

  ghost predicate LeavesAreListed(bs: seq<Binding>, t: Json) {
    forall q, v :: IsLeaf(t, q, v) ==> Listed(bs, q, v) || (q == [EXTENSIONS_KEY] && ExtTexts(bs) != [])
  }

  /** The leaves of `t` are the plain bindings, and the array of the extension paths without repetitions. */
  ghost predicate Lists(bs: seq<Binding>, t: Json) {
    && t.Obj? && Full(t)
    && PlainAreLeaves(bs, t)
    && (ExtTexts(bs) != [] ==> Lookup(t, [EXTENSIONS_KEY]) == Some(Arr(Strings(Dedup(ExtTexts(bs))))))
    && LeavesAreListed(bs, t)
  }

  // ---------------------------------------------------------------- leaves determine the tree

  lemma {:induction false} SomeLeaf(t: Json) returns (q: Path, v: Json)
    requires Full(t) && t != Obj(map[])
    ensures IsLeaf(t, q, v)
    decreases t
  {
    if t.Obj? {
      var k :| k in t.fields;
      var below;
      below, v := SomeLeaf(t.fields[k]);
      q := [k] + below;
      assert q[1..] == below;
    } else {
      q, v := [], t;
    }
  }

  ghost predicate SameLeaves(t: Json, u: Json) {
    forall q, v :: IsLeaf(t, q, v) <==> IsLeaf(u, q, v)
  }

  lemma {:induction false} LeafBelow(t: Json, k: string, q: Path, v: Json)
    requires t.Obj?
    ensures IsLeaf(t, [k] + q, v) <==> k in t.fields && IsLeaf(t.fields[k], q, v)
  {
    assert ([k] + q)[1..] == q;
  }

  lemma {:induction false} KeyIsShared(t: Json, u: Json, k: string)
    requires t.Obj? && u.Obj? && Full(t) && SameLeaves(t, u) && k in t.fields
    ensures k in u.fields
  {
    var q, v := SomeLeaf(t.fields[k]);
    LeafBelow(t, k, q, v);
    LeafBelow(u, k, q, v);
    assert IsLeaf(u, [k] + q, v);
  }

  lemma {:induction false} SubtreesShareLeaves(t: Json, u: Json, k: string)
    requires t.Obj? && u.Obj? && SameLeaves(t, u) && k in t.fields && k in u.fields
    ensures SameLeaves(t.fields[k], u.fields[k])
  {
    forall q, v
      ensures IsLeaf(t.fields[k], q, v) <==> IsLeaf(u.fields[k], q, v)
    {
      LeafBelow(t, k, q, v);
      LeafBelow(u, k, q, v);
      assert IsLeaf(t, [k] + q, v) <==> IsLeaf(u, [k] + q, v);
    }
  }

  lemma {:induction false} LeavesDetermineTree(t: Json, u: Json)
    requires Full(t) && Full(u) && SameLeaves(t, u)
    requires t.Obj? <==> u.Obj?
    ensures t == u
    decreases t
  {
    if t.Obj? {
      forall k ensures k in t.fields <==> k in u.fields {
        if k in t.fields { KeyIsShared(t, u, k); }
        if k in u.fields { KeyIsShared(u, t, k); }
      }
      forall k | k in t.fields ensures t.fields[k] == u.fields[k] {
        SubtreesShareLeaves(t, u, k);
        SameKind(t.fields[k], u.fields[k]);
        LeavesDetermineTree(t.fields[k], u.fields[k]);
      }
      assert t.fields == u.fields;
    } else {
      assert IsLeaf(t, [], t) && IsLeaf(u, [], t);
    }
  }

  lemma {:induction false} SameKind(t: Json, u: Json)
    requires SameLeaves(t, u)
    ensures t.Obj? <==> u.Obj?
  {
    assert IsLeaf(t, [], t) <==> IsLeaf(u, [], t);
    assert IsLeaf(t, [], u) <==> IsLeaf(u, [], u);
  }

  // ---------------------------------------------------------------- bindings of one tree do not clash

  /** Different plain bindings go to different leaves, none of them above or below another or the extensions array. */
  ghost predicate Compatible(bs: seq<Binding>) {
    && (forall i :: 0 <= i < |bs| ==> bs[i].path != [])
    && (forall i :: 0 <= i < |bs| ==> !bs[i].value.Obj?)
    && (forall i, j :: 0 <= i < |bs| && 0 <= j < |bs| && !IsExt(bs[i]) && !IsExt(bs[j]) ==>
          bs[i] == bs[j] || Incomparable(bs[i].path, bs[j].path))
    && (ExtTexts(bs) != [] ==>
          forall j :: 0 <= j < |bs| && !IsExt(bs[j]) ==> Incomparable([EXTENSIONS_KEY], bs[j].path))
  }

  lemma {:induction false} LeavesAreIncomparable(t: Json, p: Path, v: Json, q: Path, w: Json)
    requires IsLeaf(t, p, v) && IsLeaf(t, q, w)
    ensures (p == q && v == w) || Incomparable(p, q)
    decreases |p|
  {
    if p != [] && q != [] && p[0] == q[0] {
      LeavesAreIncomparable(t.fields[p[0]], p[1..], v, q[1..], w);
      Tails(p, q);
      assert p == [p[0]] + p[1..] && q == [q[0]] + q[1..];
    }
  }

  lemma {:induction false} ListedAreCompatible(bs: seq<Binding>, t: Json)
    requires Lists(bs, t)
    requires forall i :: 0 <= i < |bs| ==> bs[i].path != []
    requires forall i :: 0 <= i < |bs| && !IsExt(bs[i]) && ExtTexts(bs) != [] ==> bs[i].path != [EXTENSIONS_KEY]
    ensures Compatible(bs)
  {
    forall i | 0 <= i < |bs| ensures !bs[i].value.Obj? {
      assert IsExt(bs[i]) || IsLeaf(t, bs[i].path, bs[i].value);
    }
    forall i, j | 0 <= i < |bs| && 0 <= j < |bs| && !IsExt(bs[i]) && !IsExt(bs[j])
      ensures bs[i] == bs[j] || Incomparable(bs[i].path, bs[j].path)
    {
      PlainPair(bs[i], bs[j], t);
    }
    if ExtTexts(bs) != [] {
      forall j | 0 <= j < |bs| && !IsExt(bs[j])
        ensures Incomparable([EXTENSIONS_KEY], bs[j].path)
      {
        PlainAndExtensions(bs, t, j);
      }
    }
  }

  lemma {:induction false} PlainAndExtensions(bs: seq<Binding>, t: Json, j: nat)
    requires Lists(bs, t) && ExtTexts(bs) != []
    requires j < |bs| && !IsExt(bs[j]) && bs[j].path != [EXTENSIONS_KEY]
    ensures Incomparable([EXTENSIONS_KEY], bs[j].path)
  {
    PlainPair(Binding([EXTENSIONS_KEY], Arr(Strings(Dedup(ExtTexts(bs))))), bs[j], t);
  }

  lemma {:induction false} PlainPair(a: Binding, b: Binding, t: Json)
    requires IsLeaf(t, a.path, a.value) && IsLeaf(t, b.path, b.value)
    ensures a == b || Incomparable(a.path, b.path)
  {
    LeavesAreIncomparable(t, a.path, a.value, b.path, b.value);
  }

  // ---------------------------------------------------------------- applying bindings builds a tree they list

  lemma {:induction false} FullAfterSet(t: Json, p: Path, v: Json)
    requires p != [] && Full(t) && Full(v) && v != Obj(map[])
    ensures Full(SetAt(t, p, v)) && SetAt(t, p, v) != Obj(map[])
    decreases |p|
  {
    var inner := if |p| == 1 then v else SetAt(Child(t, p[0]), p[1..], v);
    if |p| > 1 {
      FullAfterSet(Child(t, p[0]), p[1..], v);
    }
    var after := SetAt(t, p, v);
    forall k | k in after.fields
      ensures after.fields[k] != Obj(map[]) && Full(after.fields[k])
    {
    }
    assert p[0] in after.fields;
  }

  /** The leaves after setting a leaf: the new one, and the old ones elsewhere. */
  lemma {:induction false} LeavesAfterSet(t: Json, p: Path, v: Json, q: Path, w: Json)
    requires p != [] && !v.Obj?
    ensures IsLeaf(SetAt(t, p, v), q, w) <==> (q == p && w == v) || (Incomparable(p, q) && IsLeaf(t, q, w))
  {
    if p <= q {
      LeafAtSet(t, p, v, q, w);
    } else if q < p {
      LeafAboveSet(t, p, v, q, w);
    } else {
      LeafElsewhere(t, p, v, q, w);
    }
  }

  lemma {:induction false} LeafAboveSet(t: Json, p: Path, v: Json, q: Path, w: Json)
    requires p != [] && q < p
    ensures !IsLeaf(SetAt(t, p, v), q, w)
  {
    ReadAboveSetPath(t, p, v, q);
  }

  lemma {:induction false} LeafElsewhere(t: Json, p: Path, v: Json, q: Path, w: Json)
    requires p != [] && Incomparable(p, q)
    ensures IsLeaf(SetAt(t, p, v), q, w) <==> IsLeaf(t, q, w)
  {
    ReadElsewhere(t, p, v, q);
  }

  lemma {:induction false} LeafAtSet(t: Json, p: Path, v: Json, q: Path, w: Json)
    requires p != [] && !v.Obj? && p <= q
    ensures IsLeaf(SetAt(t, p, v), q, w) <==> q == p && w == v
  {
    var below := q[|p|..];
    assert q == p + below;
    ReadAtSetPath(t, p, v, below);
  }

  lemma {:induction false} ListedInFront(bs: seq<Binding>, q: Path, v: Json)
    requires bs != []
    ensures Listed(bs, q, v) <==>
            Listed(bs[..|bs| - 1], q, v) || (bs[|bs| - 1] == Binding(q, v) && !IsExt(bs[|bs| - 1]))
  {
    var n := |bs| - 1;
    if Listed(bs[..n], q, v) {
      var i :| 0 <= i < n && bs[..n][i] == Binding(q, v) && !IsExt(bs[..n][i]);
      assert bs[i] == Binding(q, v);
    }
    if Listed(bs, q, v) && bs[n] != Binding(q, v) {
      var i :| 0 <= i < |bs| && bs[i] == Binding(q, v) && !IsExt(bs[i]);
      assert bs[..n][i] == Binding(q, v);
    }
  }

  lemma {:induction false} CompatibleFront(bs: seq<Binding>)
    requires bs != [] && Compatible(bs)
    ensures Compatible(bs[..|bs| - 1])
  {
  }

  /** One more plain binding. */
  lemma {:induction false} ListsOnePlain(bs: seq<Binding>, t: Json)
    requires bs != [] && Compatible(bs) && !IsExt(bs[|bs| - 1])
    requires Lists(bs[..|bs| - 1], t)
    ensures Lists(bs, SetAt(t, bs[|bs| - 1].path, bs[|bs| - 1].value))
  {
    var n := |bs| - 1;
    var front, b := bs[..n], bs[n];
    var after := SetAt(t, b.path, b.value);
    FullAfterSet(t, b.path, b.value);
    assert ExtTexts(bs) == ExtTexts(front);
    forall i | 0 <= i < |bs| && !IsExt(bs[i])
      ensures IsLeaf(after, bs[i].path, bs[i].value)
    {
      LeavesAfterSet(t, b.path, b.value, bs[i].path, bs[i].value);
      if i < n { assert front[i] == bs[i]; }
    }
    if ExtTexts(bs) != [] {
      LeavesAfterSet(t, b.path, b.value, [EXTENSIONS_KEY], Arr(Strings(Dedup(ExtTexts(bs)))));
    }
    forall q, v | IsLeaf(after, q, v)
      ensures Listed(bs, q, v) || (q == [EXTENSIONS_KEY] && ExtTexts(bs) != [])
    {
      LeavesAfterSet(t, b.path, b.value, q, v);
      ListedInFront(bs, q, v);
    }
  }

  lemma {:induction false} NothingListedAtExtensions(bs: seq<Binding>, v: Json)
    requires forall j :: 0 <= j < |bs| && !IsExt(bs[j]) ==> Incomparable([EXTENSIONS_KEY], bs[j].path)
    ensures !Listed(bs, [EXTENSIONS_KEY], v)
  {
  }

  lemma {:induction false} LookupChild(t: Json, k: string)
    ensures Lookup(t, [k]) == if k in FieldsOf(t) then Some(Child(t, k)) else None
  {
    assert [k][1..] == [];
  }

  lemma {:induction false} ItemsBefore(bs: seq<Binding>, t: Json)
    requires Lists(bs, t)
    requires forall j :: 0 <= j < |bs| && !IsExt(bs[j]) ==> Incomparable([EXTENSIONS_KEY], bs[j].path)
    ensures ExtensionItems(t) == Strings(Dedup(ExtTexts(bs)))
  {
    var child := Child(t, EXTENSIONS_KEY);
    LookupChild(t, EXTENSIONS_KEY);
    if ExtTexts(bs) == [] {
      NothingListedAtExtensions(bs, child);
      assert !IsLeaf(t, [EXTENSIONS_KEY], child);
      assert Strings([]) == [];
    }
  }

  /** One more extension. */
  lemma {:induction false} ListsOneExtension(bs: seq<Binding>, t: Json)
    requires bs != [] && Compatible(bs) && IsExt(bs[|bs| - 1])
    requires Lists(bs[..|bs| - 1], t)
    ensures Lists(bs, WithExtension(t, bs[|bs| - 1].value.text))
  {
    var front, path := bs[..|bs| - 1], bs[|bs| - 1].value.text;
    var items := Arr(Strings(Dedup(ExtTexts(bs))));
    CompatibleFront(bs);
    ExtensionsApart(bs, front);
    ItemsBefore(front, t);
    OneMoreExtension(t, ExtTexts(front), path);
    FullAfterSet(t, [EXTENSIONS_KEY], items);
    LookupSet(t, items);
    PlainLeavesStay(bs, t, items);
    LeavesWereListed(bs, t, items);
  }

  lemma {:induction false} ExtensionsApart(bs: seq<Binding>, front: seq<Binding>)
    requires bs != [] && Compatible(bs) && IsExt(bs[|bs| - 1]) && front == bs[..|bs| - 1]
    ensures forall j :: 0 <= j < |front| && !IsExt(front[j]) ==> Incomparable([EXTENSIONS_KEY], front[j].path)
  {
    assert ExtTexts(bs) != [];
  }

  lemma {:induction false} LookupSet(t: Json, items: Json)
    ensures Lookup(SetAt(t, [EXTENSIONS_KEY], items), [EXTENSIONS_KEY]) == Some(items)
  {
    ReadAtSetPath(t, [EXTENSIONS_KEY], items, []);
    assert [EXTENSIONS_KEY] + [] == [EXTENSIONS_KEY];
  }

  lemma {:induction false} PlainLeavesStay(bs: seq<Binding>, t: Json, items: Json)
    requires bs != [] && Compatible(bs) && IsExt(bs[|bs| - 1]) && PlainAreLeaves(bs[..|bs| - 1], t) && !items.Obj?
    ensures PlainAreLeaves(bs, SetAt(t, [EXTENSIONS_KEY], items))
  {
    forall i | 0 <= i < |bs| && !IsExt(bs[i])
      ensures IsLeaf(SetAt(t, [EXTENSIONS_KEY], items), bs[i].path, bs[i].value)
    {
      PlainLeafStays(bs, t, items, i);
    }
  }

  lemma {:induction false} LeavesWereListed(bs: seq<Binding>, t: Json, items: Json)
    requires bs != [] && IsExt(bs[|bs| - 1]) && LeavesAreListed(bs[..|bs| - 1], t) && !items.Obj?
    ensures LeavesAreListed(bs, SetAt(t, [EXTENSIONS_KEY], items))
  {
    forall q, v | IsLeaf(SetAt(t, [EXTENSIONS_KEY], items), q, v)
      ensures Listed(bs, q, v) || q == [EXTENSIONS_KEY]
    {
      LeafWasListed(bs, t, items, q, v);
    }
    assert ExtTexts(bs) != [];
  }

  lemma {:induction false} PlainLeafStays(bs: seq<Binding>, t: Json, items: Json, i: nat)
    requires bs != [] && Compatible(bs) && IsExt(bs[|bs| - 1]) && PlainAreLeaves(bs[..|bs| - 1], t) && !items.Obj?
    requires i < |bs| && !IsExt(bs[i])
    ensures IsLeaf(SetAt(t, [EXTENSIONS_KEY], items), bs[i].path, bs[i].value)
  {
    assert bs[..|bs| - 1][i] == bs[i];
    LeavesAfterSet(t, [EXTENSIONS_KEY], items, bs[i].path, bs[i].value);
  }

  lemma {:induction false} LeafWasListed(bs: seq<Binding>, t: Json, items: Json, q: Path, v: Json)
    requires bs != [] && LeavesAreListed(bs[..|bs| - 1], t) && !items.Obj?
    requires IsLeaf(SetAt(t, [EXTENSIONS_KEY], items), q, v)
    ensures Listed(bs, q, v) || q == [EXTENSIONS_KEY]
  {
    LeavesAfterSet(t, [EXTENSIONS_KEY], items, q, v);
    ListedInFront(bs, q, v);
  }

  lemma {:induction false} ApplyAllLast(option: Json, bs: seq<Binding>)
    requires bs != [] && forall i :: 0 <= i < |bs| ==> bs[i].path != []
    ensures var n := |bs| - 1;
            ApplyAll(option, bs) == Apply(ApplyAll(option, bs[..n]), bs[n].path, bs[n].value)
    decreases |bs|
  {
    var n := |bs| - 1;
    if n > 0 {
      ApplyAllLast(Apply(option, bs[0].path, bs[0].value), bs[1..]);
      assert bs[1..][..n - 1] == bs[..n][1..];
    }
  }

  lemma {:induction false} AppliedAreListed(bs: seq<Binding>)
    requires Compatible(bs)
    ensures Lists(bs, ApplyAll(Obj(map[]), bs))
    decreases |bs|
  {
    if bs != [] {
      CompatibleFront(bs);
      AppliedAreListed(bs[..|bs| - 1]);
      ApplyAllLast(Obj(map[]), bs);
      var before := ApplyAll(Obj(map[]), bs[..|bs| - 1]);
      if IsExt(bs[|bs| - 1]) {
        ListsOneExtension(bs, before);
      } else {
        ListsOnePlain(bs, before);
      }
    }
  }

  lemma {:induction false} ListsAtMostOne(bs: seq<Binding>, t: Json, u: Json)
    requires Compatible(bs) && Lists(bs, t) && Lists(bs, u)
    ensures t == u
  {
    forall q, v
      ensures IsLeaf(t, q, v) <==> IsLeaf(u, q, v)
    {
      if IsLeaf(t, q, v) { SharedLeaf(bs, t, u, q, v); }
      if IsLeaf(u, q, v) { SharedLeaf(bs, u, t, q, v); }
    }
    LeavesDetermineTree(t, u);
  }

  lemma {:induction false} SharedLeaf(bs: seq<Binding>, t: Json, u: Json, q: Path, v: Json)
    requires Lists(bs, t) && Lists(bs, u) && IsLeaf(t, q, v)
    ensures IsLeaf(u, q, v)
  {
    if Listed(bs, q, v) {
      var i :| 0 <= i < |bs| && bs[i] == Binding(q, v) && !IsExt(bs[i]);
      assert IsLeaf(u, bs[i].path, bs[i].value);
    }
  }

  /** Applying the bindings of a tree to an empty object, whatever their order, rebuilds the tree. */
  lemma {:induction false} BindingsRebuildTree(bs: seq<Binding>, t: Json)
    requires Lists(bs, t) && forall i :: 0 <= i < |bs| ==> PrintableBinding(bs[i])
    ensures ApplyAll(Obj(map[]), bs) == t
  {
    ListedAreCompatible(bs, t);
    AppliedAreListed(bs);
    ListsAtMostOne(bs, t, ApplyAll(Obj(map[]), bs));
  }

  /** Any printing of a list of models parses back to the same models, trees included. */
  lemma {:induction false} ModelListRoundTrip(es: seq<Entry>, models: seq<Model>)
    requires |es| == |models|
    requires forall i :: 0 <= i < |es| ==> PrintableEntry(es[i])
    requires forall i :: 0 <= i < |es| ==>
               es[i].name == models[i].name && es[i].version == models[i].version && Lists(es[i].bindings, models[i].option)
    ensures ModelsParsed(ListText(es)) == Some(models)
  {
    PrintedListParses(es);
    forall i | 0 <= i < |es| ensures ModelOf(es[i]) == models[i] {
      BindingsRebuildTree(es[i].bindings, models[i].option);
    }
    assert ModelsOf(es) == models;
  }
}
