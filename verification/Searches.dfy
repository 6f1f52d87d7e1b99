/** What the two searches of the model list find, by position. */
module Searches {
  import opened Basics
  import opened KeyScanner
  import opened Matches

  // ---------------------------------------------------------------- name:version(options)

  function KeyLength(s: string): (n: nat)
    ensures n <= |s|
  {
    match MatchKey(s)
    case Some(m) => m.length
    case None => 0
  }

  /** Searching from `pos` on finds the next match and the text after it. */
  lemma {:induction false} SearchKeyFrom(s: string, pos: nat) returns (f: Found)
    requires pos <= |s| && SearchKey(s[pos..]).Some?
    ensures IsNext(KeyLength, s, pos, f)
    ensures SearchKey(s[pos..]) == Some((MatchKey(s[f.start..]).value, s[f.end..]))
    decreases |s| - pos
  {
    var rest := s[pos..];
    if MatchKey(rest).Some? {
      f := Found(pos, pos + MatchKey(rest).value.length);
      Drop(s, pos, MatchKey(rest).value.length);
      KeyAtOnce(rest, s[f.end..]);
    } else {
      Drop(s, pos, 1);
      KeyLater(rest, s[pos + 1..]);
      f := SearchKeyFrom(s, pos + 1);
    }
  }

  lemma KeyAtOnce(s: string, rest: string)
    requires MatchKey(s).Some? && rest == s[MatchKey(s).value.length..]
    ensures SearchKey(s) == Some((MatchKey(s).value, rest))
  {
  }

  lemma KeyLater(s: string, tail: string)
    requires MatchKey(s).None? && s != [] && tail == s[1..]
    ensures SearchKey(s) == SearchKey(tail)
  {
  }

  lemma {:induction false} NoKeyFrom(s: string, pos: nat)
    requires pos <= |s| && SearchKey(s[pos..]).None?
    ensures NoneFrom(KeyLength, s, pos, |s| + 1)
    decreases |s| - pos
  {
    if pos < |s| {
      Drop(s, pos, 1);
      NoKeyFrom(s, pos + 1);
    }
  }

  /** The next match is what the search finds. */
  lemma NextKey(s: string, pos: nat, f: Found)
    requires pos <= |s| && IsNext(KeyLength, s, pos, f)
    ensures MatchKey(s[f.start..]).Some?
    ensures SearchKey(s[pos..]) == Some((MatchKey(s[f.start..]).value, s[f.end..]))
  {
    SomeMatch(KeyLength, s, pos, f);
    if SearchKey(s[pos..]).None? {
      NoKeyFrom(s, pos);
    } else {
      var g := SearchKeyFrom(s, pos);
      SameNext(KeyLength, s, pos, g, f);
    }
  }

  /** Without a match the search fails. */
  lemma NoKey(s: string, pos: nat)
    requires pos <= |s| && NoneFrom(KeyLength, s, pos, |s| + 1)
    ensures SearchKey(s[pos..]).None?
  {
    if SearchKey(s[pos..]).Some? {
      var f := SearchKeyFrom(s, pos);
      SomeMatch(KeyLength, s, pos, f);
    }
  }

  // ---------------------------------------------------------------- key = value

  function OptionLength(s: string): (n: nat)
    ensures n <= |s|
  {
    match MatchOption(s)
    case Some(m) => m.length
    case None => 0
  }

  /** Searching from `pos` on finds the next match and the text after it. */
  lemma {:induction false} SearchOptionFrom(s: string, pos: nat) returns (f: Found)
    requires pos <= |s| && SearchOption(s[pos..]).Some?
    ensures IsNext(OptionLength, s, pos, f)
    ensures SearchOption(s[pos..]) == Some((MatchOption(s[f.start..]).value, s[f.end..]))
    decreases |s| - pos
  {
    var rest := s[pos..];
    if MatchOption(rest).Some? {
      f := Found(pos, pos + MatchOption(rest).value.length);
      Drop(s, pos, MatchOption(rest).value.length);
      OptionAtOnce(rest, s[f.end..]);
    } else {
      Drop(s, pos, 1);
      OptionLater(rest, s[pos + 1..]);
      f := SearchOptionFrom(s, pos + 1);
    }
  }

  lemma OptionAtOnce(s: string, rest: string)
    requires MatchOption(s).Some? && rest == s[MatchOption(s).value.length..]
    ensures SearchOption(s) == Some((MatchOption(s).value, rest))
  {
  }

  lemma OptionLater(s: string, tail: string)
    requires MatchOption(s).None? && s != [] && tail == s[1..]
    ensures SearchOption(s) == SearchOption(tail)
  {
  }

  lemma {:induction false} NoOptionFrom(s: string, pos: nat)
    requires pos <= |s| && SearchOption(s[pos..]).None?
    ensures NoneFrom(OptionLength, s, pos, |s| + 1)
    decreases |s| - pos
  {
    if pos < |s| {
      Drop(s, pos, 1);
      NoOptionFrom(s, pos + 1);
    }
  }

  /** The next match is what the search finds. */
  lemma NextOption(s: string, pos: nat, f: Found)
    requires pos <= |s| && IsNext(OptionLength, s, pos, f)
    ensures MatchOption(s[f.start..]).Some?
    ensures SearchOption(s[pos..]) == Some((MatchOption(s[f.start..]).value, s[f.end..]))
  {
    SomeMatch(OptionLength, s, pos, f);
    if SearchOption(s[pos..]).None? {
      NoOptionFrom(s, pos);
    } else {
      var g := SearchOptionFrom(s, pos);
      SameNext(OptionLength, s, pos, g, f);
    }
  }

  /** Without a match the search fails. */
  lemma NoOption(s: string, pos: nat)
    requires pos <= |s| && NoneFrom(OptionLength, s, pos, |s| + 1)
    ensures SearchOption(s[pos..]).None?
  {
    if SearchOption(s[pos..]).Some? {
      var f := SearchOptionFrom(s, pos);
      SomeMatch(OptionLength, s, pos, f);
    }
  }
}
