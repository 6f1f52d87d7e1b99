/** Reading back the "key=value;key=value" string of provider options. */
module Readback {
  import opened Basics
  import opened ValueText

  /** The first position at or after `from` that holds `c`, or the length of `s` if there is none. */
  function Find(s: string, c: char, from: nat): (at: nat)
    requires from <= |s|
    ensures from <= at <= |s|
    ensures at < |s| ==> s[at] == c
    decreases |s| - from
  {
    if from == |s| || s[from] == c then from else Find(s, c, from + 1)
  }

  datatype Cut = Cut(key: string, value: string, next: nat)

  /** The first key and value at `pos`, and where the scanner goes on; none without an equals sign ahead. */
  function CutAt(s: string, pos: nat): (cut: Option<Cut>)
    requires pos <= |s|
    ensures cut.Some? ==> pos < cut.value.next <= |s| + 1
  {
    var eq := Find(s, '=', pos);
    if eq == |s| then None
    else
      var sc := Find(s, ';', eq);
      Some(Cut(s[pos..eq], s[eq + 1..sc], sc + 1))
  }

  /** Every key and value the scanner cuts out of `s` from `pos` on, empty keys included. */
  function Pairs(s: string, pos: nat): seq<(string, string)>
    decreases |s| - pos
  {
    if pos >= |s| then []
    else
      match CutAt(s, pos)
      case None => []
      case Some(cut) => [(cut.key, cut.value)] + Pairs(s, cut.next)
  }

  /** What storing the pairs one after the other leaves. */
  function Stored(pairs: seq<(string, string)>): map<string, Json>
  {
    if pairs == [] then map[]
    else
      var n := |pairs| - 1;
      var (k, v) := pairs[n];
      if k == "" then Stored(pairs[..n]) else Stored(pairs[..n])[k := InferValue(v)]
  }

  lemma StoredOneMore(pairs: seq<(string, string)>, k: string, v: string)
    ensures Stored(pairs + [(k, v)]) == if k == "" then Stored(pairs) else Stored(pairs)[k := InferValue(v)]
  {
    assert (pairs + [(k, v)])[..|pairs|] == pairs;
  }

  lemma PairsUnfold(s: string, pos: nat, k: string, v: string, next: nat)
    requires pos < |s| && CutAt(s, pos) == Some(Cut(k, v, next))
    ensures Pairs(s, pos) == [(k, v)] + Pairs(s, next)
  {
  }

  /** The pairs cut so far and the ones still ahead are all the pairs of `s`. */
  ghost predicate Splits(s: string, pos: nat, done: seq<(string, string)>) {
    done + Pairs(s, pos) == Pairs(s, 0)
  }

  lemma ScanOne(s: string, pos: nat, eq: nat, sc: nat, done: seq<(string, string)>, k: string, v: string)
    requires pos < |s| && eq == Find(s, '=', pos) < |s| && sc == Find(s, ';', eq)
    requires k == s[pos..eq] && v == s[eq + 1..sc] && Splits(s, pos, done)
    ensures Splits(s, sc + 1, done + [(k, v)])
  {
    PairsUnfold(s, pos, k, v, sc + 1);
    Regroup(done, [(k, v)], Pairs(s, sc + 1));
  }

  lemma ScanStep(s: string, pos: nat, eq: nat, sc: nat, done: seq<(string, string)>, k: string, v: string,
                 out: map<string, Json>)
    requires pos < |s| && eq == Find(s, '=', pos) < |s| && sc == Find(s, ';', eq)
    requires k == s[pos..eq] && v == s[eq + 1..sc] && Splits(s, pos, done) && out == Stored(done)
    ensures Splits(s, sc + 1, done + [(k, v)])
    ensures Stored(done + [(k, v)]) == if |k| == 0 then out else out[k := InferValue(v)]
  {
    ScanOne(s, pos, eq, sc, done, k, v);
    StoredOneMore(done, k, v);
  }

  lemma ScanEnds(s: string, pos: nat, done: seq<(string, string)>)
    requires (pos >= |s| || Find(s, '=', pos) == |s|) && Splits(s, pos, done)
    ensures done == Pairs(s, 0)
  {
  }

  method ParseOptionsString(s: string) returns (out: map<string, Json>)
    ensures out == Stored(Pairs(s, 0))
    ensures forall pairs, tail ::
              Printable(pairs) && AddsNothing(pairs, tail) && s == PrintPairs(pairs) + tail ==> out == Stored(pairs)
  {
    PairsDecide(s);
    out := map[];
    ghost var done: seq<(string, string)> := [];
    var pos := 0;
    while pos < |s|
      invariant out == Stored(done)
      invariant Splits(s, pos, done)
      decreases |s| - pos
    {
      var eq := Find(s, '=', pos);
      if eq == |s| {
        ScanEnds(s, pos, done);
        return;
      }
      var sc := Find(s, ';', eq);
      var k := s[pos..eq];
      var v := s[eq + 1..sc];
      ScanStep(s, pos, eq, sc, done, k, v, out);
      done := done + [(k, v)];
      if |k| != 0 {
        var value := InferReadbackValue(v);
        out := out[k := value];
      }
      pos := sc + 1;
    }
    ScanEnds(s, pos, done);
  }

  // ---------------------------------------------------------------- the printer

  function PrintPairs(pairs: seq<(string, string)>): string
  {
    if pairs == [] then ""
    else
      pairs[0].0 + ['='] + pairs[0].1 + (if |pairs| == 1 then [] else [';'] + PrintPairs(pairs[1..]))
  }

  predicate FreeOf(s: string, c: char) {
    forall i :: 0 <= i < |s| ==> s[i] != c
  }

  predicate Printable(pairs: seq<(string, string)>) {
    forall i :: 0 <= i < |pairs| ==> FreeOf(pairs[i].0, '=') && FreeOf(pairs[i].1, ';')
  }

  lemma FindUnique(s: string, c: char, from: nat, at: nat)
    requires from <= at <= |s| && (at < |s| ==> s[at] == c)
    requires forall i :: from <= i < at ==> s[i] != c
    ensures Find(s, c, from) == at
    decreases at - from
  {
    if from < at {
      FindUnique(s, c, from + 1, at);
    }
  }

  lemma CutIs(s: string, pos: nat, eq: nat, sc: nat)
    requires pos <= eq < sc <= |s| && s[eq] == '=' && (sc < |s| ==> s[sc] == ';')
    requires FreeOf(s[pos..eq], '=') && FreeOf(s[eq + 1..sc], ';')
    ensures CutAt(s, pos) == Some(Cut(s[pos..eq], s[eq + 1..sc], sc + 1))
  {
    forall i | pos <= i < eq ensures s[i] != '=' {
      assert s[pos..eq][i - pos] != '=';
    }
    FindUnique(s, '=', pos, eq);
    forall i | eq <= i < sc ensures s[i] != ';' {
      assert i > eq ==> s[eq + 1..sc][i - eq - 1] != ';';
    }
    FindUnique(s, ';', eq, sc);
  }

  lemma Shape(s: string, pos: nat, k: string, v: string, tail: string)
    requires pos <= |s| && s[pos..] == k + ['='] + v + tail
    ensures var eq, sc := pos + |k|, pos + |k| + 1 + |v|;
            sc <= |s| && s[pos..eq] == k && s[eq] == '=' && s[eq + 1..sc] == v && s[sc..] == tail
  {
    var text := k + ['='] + v + tail;
    assert text[..|k|] == k && text[|k|] == '=' && text[|k| + 1..|k| + 1 + |v|] == v && text[|k| + 1 + |v|..] == tail;
    Slices(s, pos, |k|, |k| + 1 + |v|);
  }

  lemma Slices(s: string, pos: nat, i: nat, j: nat)
    requires pos <= |s| && i < j <= |s| - pos
    ensures s[pos..][..i] == s[pos..pos + i] && s[pos..][i] == s[pos + i]
    ensures s[pos..][i + 1..j] == s[pos + i + 1..pos + j] && s[pos..][j..] == s[pos + j..]
  {
  }

  lemma AfterSemicolon(s: string, sc: nat, tail: string, rest: string)
    requires sc <= |s| && s[sc..] == tail && tail == [';'] + rest
    ensures sc < |s| && s[sc] == ';' && s[sc + 1..] == rest
  {
    assert s[sc + 1..] == s[sc..][1..];
  }

  /** What can follow printed pairs without adding one: text without an equals sign, after a semicolon if there is a pair. */
  predicate AddsNothing(pairs: seq<(string, string)>, tail: string) {
    FreeOf(tail, '=') && (pairs != [] && tail != [] ==> tail[0] == ';')
  }

  /** The scanner cuts every text into the pairs it begins with; keys may hold semicolons and values equals signs. */
  lemma {:induction false} TextIsCut(s: string, pos: nat, pairs: seq<(string, string)>, tail: string)
    requires Printable(pairs) && AddsNothing(pairs, tail)
    requires pos <= |s| && s[pos..] == PrintPairs(pairs) + tail
    ensures Pairs(s, pos) == pairs
    decreases |pairs|
  {
    if pairs == [] {
      NothingToCut(s, pos, tail);
    } else if |pairs| == 1 {
      var next := ReadLast(s, pos, pairs, tail);
      PairsUnfold(s, pos, pairs[0].0, pairs[0].1, next);
    } else {
      var next := ReadFirst(s, pos, pairs, pairs[1..], tail);
      PairsUnfold(s, pos, pairs[0].0, pairs[0].1, next);
      TextIsCut(s, next, pairs[1..], tail);
    }
  }

  lemma NothingToCut(s: string, pos: nat, tail: string)
    requires pos <= |s| && FreeOf(tail, '=') && s[pos..] == [] + tail
    ensures Pairs(s, pos) == []
  {
    forall i | pos <= i < |s| ensures s[i] != '=' {
      assert s[i] == s[pos..][i - pos];
    }
    FindUnique(s, '=', pos, |s|);
  }

  lemma ReadFirst(s: string, pos: nat, pairs: seq<(string, string)>, rest: seq<(string, string)>, tail: string)
    returns (next: nat)
    requires Printable(pairs) && |pairs| > 1 && rest == pairs[1..]
    requires pos <= |s| && s[pos..] == PrintPairs(pairs) + tail
    ensures pos < next <= |s| && s[next..] == PrintPairs(rest) + tail
    ensures CutAt(s, pos) == Some(Cut(pairs[0].0, pairs[0].1, next))
  {
    var text, more := PrintMore(pairs, rest, tail);
    next := ReadOne(s, pos, pairs[0].0, pairs[0].1, more, text);
  }

  lemma ReadOne(s: string, pos: nat, k: string, v: string, tail: string, text: string) returns (next: nat)
    requires FreeOf(k, '=') && FreeOf(v, ';') && tail == [';'] + text
    requires pos <= |s| && s[pos..] == k + ['='] + v + tail
    ensures pos < next <= |s| && s[next..] == text && CutAt(s, pos) == Some(Cut(k, v, next))
  {
    var eq, sc := pos + |k|, pos + |k| + 1 + |v|;
    Shape(s, pos, k, v, tail);
    AfterSemicolon(s, sc, tail, text);
    CutIs(s, pos, eq, sc);
    next := sc + 1;
  }

  /** After the last pair, the scanner goes on behind the semicolon, where there is nothing to cut. */
  lemma ReadLast(s: string, pos: nat, pairs: seq<(string, string)>, tail: string) returns (next: nat)
    requires Printable(pairs) && |pairs| == 1 && AddsNothing(pairs, tail)
    requires pos <= |s| && s[pos..] == PrintPairs(pairs) + tail
    ensures pos < next && CutAt(s, pos) == Some(Cut(pairs[0].0, pairs[0].1, next)) && Pairs(s, next) == []
  {
    var (k, v) := pairs[0];
    assert PrintPairs(pairs) == k + ['='] + v;
    Shape(s, pos, k, v, tail);
    var sc := pos + |k| + 1 + |v|;
    if sc < |s| { assert s[sc] == s[sc..][0]; }
    CutIs(s, pos, pos + |k|, sc);
    next := sc + 1;
    if sc < |s| {
      assert s[next..] == [] + tail[1..];
      NothingToCut(s, next, tail[1..]);
    }
  }

  lemma PrintMore(pairs: seq<(string, string)>, rest: seq<(string, string)>, tail: string)
    returns (text: string, more: string)
    requires |pairs| > 1 && rest == pairs[1..]
    ensures text == PrintPairs(rest) + tail && more == [';'] + text
    ensures PrintPairs(pairs) + tail == pairs[0].0 + ['='] + pairs[0].1 + more
  {
    text := PrintPairs(rest) + tail;
    more := [';'] + text;
    MoveTail(pairs[0].0 + ['='] + pairs[0].1, PrintPairs(rest), tail);
  }

  lemma MoveTail(pair: string, printed: string, tail: string)
    ensures pair + ([';'] + printed) + tail == pair + ([';'] + (printed + tail))
  {
  }

  lemma PairsDecide(s: string)
    ensures forall pairs, tail ::
              Printable(pairs) && AddsNothing(pairs, tail) && s == PrintPairs(pairs) + tail ==> Pairs(s, 0) == pairs
  {
    assert s[0..] == s;
    forall pairs, tail | Printable(pairs) && AddsNothing(pairs, tail) && s == PrintPairs(pairs) + tail
      ensures Pairs(s, 0) == pairs
    {
      TextIsCut(s, 0, pairs, tail);
    }
  }

  /** The scanner cuts a printed list into the same pairs. */
  lemma PrintedPairsReadBack(s: string, pos: nat, pairs: seq<(string, string)>)
    requires Printable(pairs)
    requires pos <= |s| && s[pos..] == PrintPairs(pairs)
    ensures Pairs(s, pos) == pairs
  {
    assert PrintPairs(pairs) + [] == PrintPairs(pairs);
    TextIsCut(s, pos, pairs, []);
  }

  /** Every text is printed pairs and something that adds none. */
  lemma {:induction false} EveryTextIsPairs(s: string, pos: nat) returns (pairs: seq<(string, string)>, tail: string)
    requires pos <= |s|
    ensures Printable(pairs) && AddsNothing(pairs, tail) && s[pos..] == PrintPairs(pairs) + tail
    decreases |s| - pos
  {
    var eq := Find(s, '=', pos);
    NotFoundBefore(s, '=', pos);
    if eq == |s| {
      pairs, tail := [], s[pos..];
      assert [] + tail == tail;
    } else {
      var sc := Find(s, ';', eq);
      NotFoundBefore(s, ';', eq);
      var k, v := s[pos..eq], s[eq + 1..sc];
      assert FreeOf(v, ';') by { assert forall i :: 0 <= i < |v| ==> v[i] == s[eq + 1 + i]; }
      PairStands(s, pos, eq, sc);
      if sc == |s| {
        pairs, tail := [(k, v)], [];
      } else {
        var rest, end := EveryTextIsPairs(s, sc + 1);
        PairInFront(s, sc, k, v, rest, end);
        if rest == [] {
          pairs, tail := [(k, v)], [';'] + end;
        } else {
          pairs, tail := [(k, v)] + rest, end;
          assert pairs[1..] == rest;
        }
      }
    }
  }

  lemma {:induction false} NotFoundBefore(s: string, c: char, from: nat)
    requires from <= |s|
    ensures forall i :: from <= i < Find(s, c, from) ==> s[i] != c
    decreases |s| - from
  {
    if from < |s| && s[from] != c {
      NotFoundBefore(s, c, from + 1);
    }
  }

  lemma PairStands(s: string, pos: nat, eq: nat, sc: nat)
    requires pos <= eq < sc <= |s| && s[eq] == '='
    ensures s[pos..] == s[pos..eq] + ['='] + s[eq + 1..sc] + s[sc..]
  {
  }

  /** One pair more, when the rest begins behind its semicolon. */
  lemma PairInFront(s: string, sc: nat, k: string, v: string, rest: seq<(string, string)>, end: string)
    requires sc < |s| && s[sc] == ';' && s[sc + 1..] == PrintPairs(rest) + end
    ensures rest == [] ==> k + ['='] + v + s[sc..] == PrintPairs([(k, v)]) + ([';'] + end)
    ensures rest != [] ==> k + ['='] + v + s[sc..] == PrintPairs([(k, v)] + rest) + end
  {
    assert s[sc..] == [';'] + s[sc + 1..];
    if rest == [] {
      assert s[sc..] == [';'] + end;
    } else {
      assert ([(k, v)] + rest)[1..] == rest;
      MoveTail(k + ['='] + v, PrintPairs(rest), end);
    }
  }

  /** Pair `i` is the last one with the key `k`. */
  ghost predicate IsLast(pairs: seq<(string, string)>, k: string, i: nat) {
    i < |pairs| && pairs[i].0 == k && forall j :: i < j < |pairs| ==> pairs[j].0 != k
  }

  ghost predicate HasKey(pairs: seq<(string, string)>, k: string) {
    exists i :: 0 <= i < |pairs| && pairs[i].0 == k
  }

  /** The value under a key is that of the last pair with the key. */
  lemma {:induction false} LastWriterWins(pairs: seq<(string, string)>, k: string, i: nat)
    requires k != "" && IsLast(pairs, k, i)
    ensures k in Stored(pairs) && Stored(pairs)[k] == InferValue(pairs[i].1)
    decreases |pairs|
  {
    if i < |pairs| - 1 {
      LastWriterWins(pairs[..|pairs| - 1], k, i);
    }
  }

  lemma {:induction false} NotStored(pairs: seq<(string, string)>, k: string)
    requires k == "" || !HasKey(pairs, k)
    ensures k !in Stored(pairs)
  {
    if pairs != [] {
      var n := |pairs| - 1;
      assert k == "" || pairs[n].0 != k;
      assert HasKey(pairs[..n], k) ==> HasKey(pairs, k) by {
        if i :| 0 <= i < n && pairs[..n][i].0 == k { assert pairs[i].0 == k; }
      }
      NotStored(pairs[..n], k);
    }
  }

  lemma {:induction false} SomeLast(pairs: seq<(string, string)>, k: string) returns (i: nat)
    requires HasKey(pairs, k)
    ensures IsLast(pairs, k, i)
  {
    var n := |pairs| - 1;
    if pairs[n].0 == k {
      i := n;
    } else {
      var j :| 0 <= j < |pairs| && pairs[j].0 == k;
      assert pairs[..n][j].0 == k;
      i := SomeLast(pairs[..n], k);
    }
  }

  /** The stored keys are the non-empty keys of the pairs, each with the value of its last pair. */
  lemma StoredExactly(pairs: seq<(string, string)>, k: string)
    ensures k in Stored(pairs) <==> k != "" && HasKey(pairs, k)
    ensures forall i: nat :: IsLast(pairs, k, i) && k in Stored(pairs) ==> Stored(pairs)[k] == InferValue(pairs[i].1)
  {
    if k == "" || !HasKey(pairs, k) {
      NotStored(pairs, k);
    } else {
      var last := SomeLast(pairs, k);
      LastWriterWins(pairs, k, last);
      forall i: nat | IsLast(pairs, k, i) ensures i == last {
        assert pairs[i].0 == k && pairs[last].0 == k;
      }
    }
  }

  /** The readback parser inverts the printer: every printed key but the empty one, with the last value printed for it. */
  lemma OptionsStringRoundTrip(pairs: seq<(string, string)>, k: string)
    requires Printable(pairs)
    ensures var read := Stored(Pairs(PrintPairs(pairs), 0));
            && (k in read <==> k != "" && HasKey(pairs, k))
            && forall i: nat :: IsLast(pairs, k, i) && k in read ==> read[k] == InferValue(pairs[i].1)
  {
    PrintedPairsReadBack(PrintPairs(pairs), 0, pairs);
    StoredExactly(pairs, k);
  }
}
