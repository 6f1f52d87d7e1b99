/** Normalizing the white space of a model list. */
module WhiteSpace {
  import opened Basics
  import opened KeyScanner

  /** Runs of white space become one space. */
  function Collapse(s: string): string
  {
    if s == [] then []
    else if IsSpace(s[0]) then [' '] + Collapse(s[1 + Span(s[1..], IsSpace)..])
    else [s[0]] + Collapse(s[1..])
  }

  function TrimEnd(s: string): string
  {
    if s != [] && IsSpace(s[|s| - 1]) then TrimEnd(s[..|s| - 1]) else s
  }

  function Normalized(s: string): string {
    var collapsed := Collapse(s);
    TrimEnd(collapsed[Span(collapsed, IsSpace)..])
  }

  // ---------------------------------------------------------------- words and gaps

  predicate IsWord(w: string) {
    w != [] && forall i :: 0 <= i < |w| ==> !IsSpace(w[i])
  }

  ghost predicate AreWords(ws: seq<string>) {
    forall i :: 0 <= i < |ws| ==> IsWord(ws[i])
  }

  /** White space around and between `n` words: the inner gaps are not empty, the outer ones may be. */
  ghost predicate AreGaps(gaps: seq<string>, n: nat) {
    && |gaps| == n + 1
    && (forall i :: 0 <= i <= n ==> All(gaps[i], IsSpace))
    && (forall i :: 0 < i < n ==> gaps[i] != [])
  }

  /** The words with the gaps around and between them. */
  function Spaced(ws: seq<string>, gaps: seq<string>): string
    requires |gaps| == |ws| + 1
  {
    if ws == [] then gaps[0] else gaps[0] + (ws[0] + Spaced(ws[1..], gaps[1..]))
  }

  /** The words with one space between them. */
  function SpaceJoined(ws: seq<string>): string
  {
    if ws == [] then [] else ws[0] + (if |ws| == 1 then [] else [' '] + SpaceJoined(ws[1..]))
  }

  /** Every text is words with gaps. */
  lemma {:induction false} EveryTextIsSpaced(s: string) returns (ws: seq<string>, gaps: seq<string>)
    ensures AreWords(ws) && AreGaps(gaps, |ws|) && Spaced(ws, gaps) == s
    decreases |s|
  {
    var gap, w, rest := FirstGapAndWord(s);
    if w == [] {
      ws, gaps := [], [gap];
    } else {
      ws, gaps := EveryTextIsSpaced(rest);
      GapsInFront(rest, ws, gaps, gap);
      ws, gaps := OneMoreWord(s, gap, w, rest, ws, gaps);
    }
  }

  lemma FirstGapAndWord(s: string) returns (gap: string, w: string, rest: string)
    ensures All(gap, IsSpace) && s == gap + (w + rest)
    ensures w == [] ==> s == gap
    ensures w != [] ==> IsWord(w) && |rest| < |s| && (rest != [] ==> IsSpace(rest[0]))
  {
    var n := Span(s, IsSpace);
    SpanStops(s, IsSpace);
    gap := s[..n];
    if n == |s| {
      w, rest := [], [];
    } else {
      var m := WordLength(s[n..]);
      w, rest := s[n..][..m], s[n..][m..];
    }
  }

  lemma OneMoreWord(s: string, gap: string, w: string, rest: string, ws: seq<string>, gaps: seq<string>)
    returns (ws': seq<string>, gaps': seq<string>)
    requires s == gap + (w + rest) && IsWord(w) && AreWords(ws) && AreGaps([gap] + gaps, |ws| + 1)
    requires |gaps| == |ws| + 1 && Spaced(ws, gaps) == rest
    ensures AreWords(ws') && AreGaps(gaps', |ws'|) && Spaced(ws', gaps') == s
  {
    ws', gaps' := [w] + ws, [gap] + gaps;
    assert ws'[1..] == ws && gaps'[1..] == gaps;
  }

  lemma {:induction false} WordLength(s: string) returns (w: nat)
    requires s != [] && !IsSpace(s[0])
    ensures 0 < w <= |s| && IsWord(s[..w]) && (w < |s| ==> IsSpace(s[w]))
    decreases |s|
  {
    if |s| == 1 || IsSpace(s[1]) {
      w := 1;
    } else {
      var v := WordLength(s[1..]);
      w := v + 1;
      assert s[..w] == [s[0]] + s[1..][..v];
    }
  }

  /** A text that begins with white space begins with a gap. */
  lemma GapsInFront(rest: string, ws: seq<string>, gaps: seq<string>, gap: string)
    requires AreWords(ws) && AreGaps(gaps, |ws|) && Spaced(ws, gaps) == rest
    requires All(gap, IsSpace) && (rest != [] ==> IsSpace(rest[0]))
    ensures AreGaps([gap] + gaps, |ws| + 1)
  {
    FirstWord(ws, gaps);
  }

  lemma FirstWord(ws: seq<string>, gaps: seq<string>)
    requires AreWords(ws) && |gaps| == |ws| + 1
    ensures ws != [] && gaps[0] == [] ==> Spaced(ws, gaps) != [] && !IsSpace(Spaced(ws, gaps)[0])
  {
    if ws != [] && gaps[0] == [] {
      assert Spaced(ws, gaps) == ws[0] + Spaced(ws[1..], gaps[1..]);
    }
  }

  function OneSpace(gap: string): string {
    if gap == [] then [] else [' ']
  }

  lemma {:induction false} CollapseWord(w: string, rest: string)
    requires forall i :: 0 <= i < |w| ==> !IsSpace(w[i])
    ensures Collapse(w + rest) == w + Collapse(rest)
    decreases |w|
  {
    if w == [] {
      assert w + rest == rest;
    } else {
      assert (w + rest)[1..] == w[1..] + rest;
      CollapseWord(w[1..], rest);
      Regroup([w[0]], w[1..], Collapse(rest));
      assert w == [w[0]] + w[1..];
    }
  }

  lemma CollapseGap(gap: string, rest: string)
    requires All(gap, IsSpace) && (rest != [] ==> !IsSpace(rest[0]))
    ensures Collapse(gap + rest) == OneSpace(gap) + Collapse(rest)
  {
    if gap == [] {
      assert gap + rest == rest;
    } else {
      assert (gap + rest)[1..] == gap[1..] + rest;
      assert (gap[1..] + rest)[..|gap| - 1] == gap[1..];
      SpanIs(gap[1..] + rest, IsSpace, |gap| - 1);
      assert (gap + rest)[|gap|..] == rest;
    }
  }

  /** Collapsing leaves at most one space in every gap. */
  lemma {:induction false} CollapseSpaced(ws: seq<string>, gaps: seq<string>)
    requires AreWords(ws) && AreGaps(gaps, |ws|)
    ensures Collapse(Spaced(ws, gaps)) ==
            OneSpace(gaps[0]) + (SpaceJoined(ws) + (if ws == [] then [] else OneSpace(gaps[|ws|])))
    decreases |ws|
  {
    if ws == [] {
      assert gaps[0] + [] == gaps[0];
      CollapseGap(gaps[0], []);
      assert SpaceJoined(ws) + [] == [];
    } else {
      var rest := Spaced(ws[1..], gaps[1..]);
      assert (ws[0] + rest)[0] == ws[0][0];
      CollapseGap(gaps[0], ws[0] + rest);
      CollapseWord(ws[0], rest);
      CollapseSpaced(ws[1..], gaps[1..]);
      JoinOneMore(ws, gaps, gaps[1..], OneSpace(gaps[|ws|]));
    }
  }

  lemma JoinOneMore(ws: seq<string>, gaps: seq<string>, rest: seq<string>, last: string)
    requires ws != [] && AreGaps(gaps, |ws|) && rest == gaps[1..] && last == OneSpace(gaps[|ws|])
    ensures ws[0] + (OneSpace(rest[0]) + (SpaceJoined(ws[1..]) + (if |ws| == 1 then [] else OneSpace(rest[|ws| - 1])))) ==
            SpaceJoined(ws) + last
  {
    assert rest[0] == gaps[1] && rest[|ws| - 1] == gaps[|ws|];
    if |ws| == 1 {
      OnlyWord(ws[0], last);
    } else {
      JoinFirst(ws, ws[1..]);
      MoveLast(ws[0], SpaceJoined(ws[1..]), last);
    }
  }

  lemma JoinFirst(ws: seq<string>, rest: seq<string>)
    requires |ws| > 1 && rest == ws[1..]
    ensures SpaceJoined(ws) == ws[0] + ([' '] + SpaceJoined(rest))
  {
  }

  lemma OnlyWord(w: string, last: string)
    ensures w + (last + ([] + [])) == w + [] + last
  {
  }

  lemma MoveLast(w: string, tail: string, last: string)
    ensures w + ([' '] + (tail + last)) == (w + ([' '] + tail)) + last
  {
  }

  lemma {:induction false} JoinedEnds(ws: seq<string>)
    requires AreWords(ws) && ws != []
    ensures var s := SpaceJoined(ws); s != [] && !IsSpace(s[0]) && !IsSpace(s[|s| - 1])
  {
    if |ws| > 1 {
      JoinedEnds(ws[1..]);
    }
  }

  lemma TrimmedGap(s: string, gap: string)
    requires (s != [] ==> !IsSpace(s[|s| - 1])) && gap in {[], [' ']}
    ensures TrimEnd(s + gap) == s
  {
    if gap == [] {
      assert s + gap == s;
    } else {
      assert (s + gap)[..|s|] == s && (s + gap)[|s|] == ' ';
    }
  }

  /** Whatever white space stands around and between words, one space between them is left. */
  lemma NormalizedText(ws: seq<string>, gaps: seq<string>)
    requires AreWords(ws) && AreGaps(gaps, |ws|)
    ensures Normalized(Spaced(ws, gaps)) == SpaceJoined(ws)
  {
    CollapseSpaced(ws, gaps);
    var first, last := OneSpace(gaps[0]), if ws == [] then [] else OneSpace(gaps[|ws|]);
    var joined := SpaceJoined(ws);
    if ws != [] { JoinedEnds(ws); }
    Untrimmed(first, joined, last);
  }

  lemma Untrimmed(first: string, joined: string, last: string)
    requires first in {[], [' ']} && last in {[], [' ']}
    requires joined == [] ==> last == []
    requires joined != [] ==> !IsSpace(joined[0]) && !IsSpace(joined[|joined| - 1])
    ensures var collapsed := first + (joined + last); TrimEnd(collapsed[Span(collapsed, IsSpace)..]) == joined
  {
    var collapsed := first + (joined + last);
    assert collapsed[..|first|] == first && collapsed[|first|..] == joined + last;
    SpanIs(collapsed, IsSpace, |first|);
    TrimmedGap(joined, last);
  }
}
