/** Dotted option keys: setting a value deep inside a JSON object, and the laws of doing so. */
module NestedOption {
  import opened Basics

  type Path = seq<string>

  function FieldsOf(t: Json): map<string, Json> {
    if t.Obj? then t.fields else map[]
  }

  function Child(t: Json, key: string): Json {
    if key in FieldsOf(t) then FieldsOf(t)[key] else Null
  }

  /** `t` with `value` at `path`; whatever is not an object on the way there is replaced by one. */
  function SetAt(t: Json, path: Path, value: Json): Json
    requires path != []
    decreases |path|
  {
    Obj(FieldsOf(t)[path[0] := if |path| == 1 then value else SetAt(Child(t, path[0]), path[1..], value)])
  }

  function Lookup(t: Json, path: Path): Option<Json>
    decreases |path|
  {
    if path == [] then Some(t)
    else if path[0] in FieldsOf(t) then Lookup(FieldsOf(t)[path[0]], path[1..])
    else None
  }

  predicate Incomparable(p: Path, q: Path) {
    !(p <= q) && !(q <= p)
  }

  // ---------------------------------------------------------------- the update in place

  /** The objects on the way to a node, with the node's new value put back below them. */
  function Plug(parents: seq<map<string, Json>>, path: Path, node: Json): Json
    requires |parents| == |path|
  {
    if parents == [] then node else Obj(parents[0][path[0] := Plug(parents[1..], path[1..], node)])
  }

  lemma {:induction false} PlugLast(parents: seq<map<string, Json>>, path: Path, node: Json)
    requires |parents| == |path| > 0
    ensures var n := |path| - 1;
            Plug(parents, path, node) == Plug(parents[..n], path[..n], Obj(parents[n][path[n] := node]))
  {
    var n := |path| - 1;
    if n > 0 {
      PlugLast(parents[1..], path[1..], node);
      assert parents[1..][..n - 1] == parents[..n][1..] && path[1..][..n - 1] == path[..n][1..];
    }
  }

  /** A JSON value that is updated in place. */
  class OptionCell {
    var value: Json

    constructor ()
      ensures value == Obj(map[])
    {
      value := Obj(map[]);
    }

    method SetNested(path: Path, v: Json)
      requires path != []
      modifies this
      ensures value == SetAt(old(value), path, v)
    {
      var n := |path| - 1;
      var cur := value;
      var parents: seq<map<string, Json>> := [];
      for i := 0 to n
        invariant |parents| == i
        invariant SetAt(old(value), path, v) == Plug(parents, path[..i], SetAt(cur, path[i..], v))
      {
        ghost var outer := cur;
        if !cur.Obj? {
          cur := Obj(map[]);
        }
        if path[i] !in cur.fields || !cur.fields[path[i]].Obj? {
          cur := Obj(cur.fields[path[i] := Obj(map[])]);
        }
        StepDown(parents, outer, cur.fields, path, i, v);
        parents := parents + [cur.fields];
        cur := cur.fields[path[i]];
      }
      assert SetAt(cur, path[n..], v) == Obj(FieldsOf(cur)[path[n] := v]);
      assert parents[..n] == parents;
      if !cur.Obj? {
        cur := Obj(map[]);
      }
      cur := Obj(cur.fields[path[n] := v]);

      for i := n downto 0
        invariant Plug(parents[..i], path[..i], cur) == SetAt(old(value), path, v)
      {
        StepUp(parents, path, i, cur);
        cur := Obj(parents[i][path[i] := cur]);
      }
      value := cur;
    }
  }

  /** Going down one level moves the node's fields to the parents. */
  lemma StepDown(parents: seq<map<string, Json>>, outer: Json, fields: map<string, Json>, path: Path, i: nat, v: Json)
    requires i == |parents| && i + 1 < |path| && path[i] in fields
    requires fields == FieldsOf(outer)[path[i] := if Child(outer, path[i]).Obj? then Child(outer, path[i]) else Obj(map[])]
    ensures Plug(parents, path[..i], SetAt(outer, path[i..], v)) ==
            Plug(parents + [fields], path[..i + 1], SetAt(fields[path[i]], path[i + 1..], v))
  {
    Descend(outer, fields, path, i, v);
    PlugLast(parents + [fields], path[..i + 1], SetAt(fields[path[i]], path[i + 1..], v));
    assert path[..i + 1][..i] == path[..i] && (parents + [fields])[..i] == parents;
  }

  /** Going up one level puts the node back into the last parent. */
  lemma StepUp(parents: seq<map<string, Json>>, path: Path, i: nat, node: Json)
    requires i < |parents| && i < |path|
    ensures Plug(parents[..i + 1], path[..i + 1], node) == Plug(parents[..i], path[..i], Obj(parents[i][path[i] := node]))
  {
    PlugLast(parents[..i + 1], path[..i + 1], node);
    assert parents[..i + 1][..i] == parents[..i] && path[..i + 1][..i] == path[..i];
  }

  lemma Descend(outer: Json, fields: map<string, Json>, path: Path, i: nat, v: Json)
    requires i + 1 < |path| && path[i] in fields
    requires fields == FieldsOf(outer)[path[i] := if Child(outer, path[i]).Obj? then Child(outer, path[i]) else Obj(map[])]
    ensures SetAt(outer, path[i..], v) == Obj(fields[path[i] := SetAt(fields[path[i]], path[i + 1..], v)])
  {
    assert path[i..][1..] == path[i + 1..];
    assert SetAt(fields[path[i]], path[i + 1..], v) == SetAt(Child(outer, path[i]), path[i + 1..], v);
  }

  // ---------------------------------------------------------------- laws

  /** Reading at or below the path that was set reads the new value. */
  lemma {:induction false} ReadAtSetPath(t: Json, p: Path, v: Json, below: Path)
    requires p != []
    ensures Lookup(SetAt(t, p, v), p + below) == Lookup(v, below)
    decreases |p|
  {
    assert (p + below)[1..] == p[1..] + below;
    if |p| == 1 {
      assert p[1..] + below == below;
    } else {
      ReadAtSetPath(Child(t, p[0]), p[1..], v, below);
    }
  }

  /** Above the path there is now an object. */
  lemma {:induction false} ReadAboveSetPath(t: Json, p: Path, v: Json, q: Path)
    requires q < p
    ensures Lookup(SetAt(t, p, v), q).Some? && Lookup(SetAt(t, p, v), q).value.Obj?
    decreases |p|
  {
    if q != [] {
      ReadAboveSetPath(Child(t, p[0]), p[1..], v, q[1..]);
    }
  }

  /** Every path that neither leads to the set one nor below it reads as before, even if a scalar was replaced above. */
  lemma {:induction false} ReadElsewhere(t: Json, p: Path, v: Json, q: Path)
    requires p != [] && Incomparable(p, q)
    ensures Lookup(SetAt(t, p, v), q) == Lookup(t, q)
    decreases |p|
  {
    if p[0] == q[0] {
      Tails(p, q);
      ReadElsewhere(Child(t, p[0]), p[1..], v, q[1..]);
      if p[0] !in FieldsOf(t) {
        assert Lookup(Null, q[1..]) == None;
      }
    }
  }

  lemma Tails(p: Path, q: Path)
    requires p != [] && q != [] && p[0] == q[0]
    ensures p[1..] <= q[1..] <==> p <= q
    ensures q[1..] <= p[1..] <==> q <= p
  {
    assert p == [p[0]] + p[1..] && q == [q[0]] + q[1..];
  }

  /** Updates at incomparable paths commute. */
  lemma {:induction false} SetsCommute(t: Json, p: Path, v: Json, q: Path, w: Json)
    requires p != [] && q != [] && Incomparable(p, q)
    ensures SetAt(SetAt(t, p, v), q, w) == SetAt(SetAt(t, q, w), p, v)
    decreases |p|
  {
    if p[0] == q[0] {
      Tails(p, q);
      SetTwiceUnder(t, p, v, q, w);
      SetTwiceUnder(t, q, w, p, v);
      SetsCommute(Child(t, p[0]), p[1..], v, q[1..], w);
    } else {
      SetTwiceApart(t, p, v, q, w);
      SetTwiceApart(t, q, w, p, v);
    }
  }

  lemma SetTwiceUnder(t: Json, p: Path, v: Json, q: Path, w: Json)
    requires |p| > 1 && |q| > 1 && p[0] == q[0]
    ensures SetAt(SetAt(t, p, v), q, w) ==
            Obj(FieldsOf(t)[p[0] := SetAt(SetAt(Child(t, p[0]), p[1..], v), q[1..], w)])
  {
    var inner := SetAt(Child(t, p[0]), p[1..], v);
    assert Child(SetAt(t, p, v), p[0]) == inner;
    assert FieldsOf(t)[p[0] := inner][p[0] := SetAt(inner, q[1..], w)] == FieldsOf(t)[p[0] := SetAt(inner, q[1..], w)];
  }

  lemma SetTwiceApart(t: Json, p: Path, v: Json, q: Path, w: Json)
    requires p != [] && q != [] && p[0] != q[0]
    ensures SetAt(SetAt(t, p, v), q, w) ==
            Obj(FieldsOf(t)[p[0] := SetAt(t, p, v).fields[p[0]]][q[0] := SetAt(t, q, w).fields[q[0]]])
    ensures var a, b := SetAt(t, p, v).fields[p[0]], SetAt(t, q, w).fields[q[0]];
            FieldsOf(t)[p[0] := a][q[0] := b] == FieldsOf(t)[q[0] := b][p[0] := a]
  {
    assert Child(SetAt(t, p, v), q[0]) == Child(t, q[0]);
  }

  /** An update forgets any earlier one at or below its path. */
  lemma {:induction false} LastSetWins(t: Json, p: Path, v: Json, q: Path, w: Json)
    requires p != [] && p <= q
    ensures SetAt(SetAt(t, q, w), p, v) == SetAt(t, p, v)
    decreases |p|
  {
    if |p| > 1 {
      Tails(p, q);
      LastSetWins(Child(t, p[0]), p[1..], v, q[1..], w);
    }
  }
}
