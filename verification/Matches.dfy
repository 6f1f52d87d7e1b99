/** The successive matches of an expression in a text, by position. */
module Matches {
  import opened Basics

  /** A match, from its first character to just past its last. */
  datatype Found = Found(start: nat, end: nat)

  /** The length of the match at the start of a text; zero if there is none. */
  type Matcher = string -> nat

  function LengthAt(len: Matcher, s: string, at: nat): nat {
    if at <= |s| then len(s[at..]) else 0
  }

  ghost predicate NoneFrom(len: Matcher, s: string, from: nat, to: nat) {
    forall j :: from <= j < to ==> LengthAt(len, s, j) == 0
  }

  /** `f` is the leftmost match at or after `from`. */
  ghost predicate IsNext(len: Matcher, s: string, from: nat, f: Found) {
    && from <= f.start < f.end <= |s| && NoneFrom(len, s, from, f.start)
    && f.end == f.start + LengthAt(len, s, f.start)
  }

  /** The matches from `pos` on: each the leftmost after the one before, and none after the last. */
  ghost predicate AreMatches(len: Matcher, s: string, pos: nat, fs: seq<Found>)
    decreases |fs|
  {
    if fs == [] then NoneFrom(len, s, pos, |s| + 1)
    else IsNext(len, s, pos, fs[0]) && AreMatches(len, s, fs[0].end, fs[1..])
  }

  /** Where the last match ends; `pos` if there is none. */
  function End(pos: nat, fs: seq<Found>): nat {
    if fs == [] then pos else fs[|fs| - 1].end
  }

  /** No match reaches beyond its text. */
  ghost predicate IsBounded(len: Matcher) {
    forall s :: len(s) <= |s|
  }

  /** Every text has its matches. */
  lemma {:induction false} MatchesOf(len: Matcher, s: string, pos: nat) returns (fs: seq<Found>)
    requires pos <= |s| && IsBounded(len)
    ensures AreMatches(len, s, pos, fs)
    decreases |s| - pos
  {
    var f := FirstMatch(len, s, pos);
    if f == None {
      fs := [];
    } else {
      var rest := MatchesOf(len, s, f.value.end);
      fs := [f.value] + rest;
      assert fs[1..] == rest;
    }
  }

  lemma {:induction false} FirstMatch(len: Matcher, s: string, pos: nat) returns (f: Option<Found>)
    requires pos <= |s| && IsBounded(len)
    ensures match f
            case None => NoneFrom(len, s, pos, |s| + 1)
            case Some(found) => IsNext(len, s, pos, found)
    decreases |s| - pos
  {
    if len(s[pos..]) > 0 {
      f := Some(Found(pos, pos + len(s[pos..])));
    } else if pos == |s| {
      f := None;
    } else {
      f := FirstMatch(len, s, pos + 1);
    }
  }

  /** And only these. */
  lemma {:induction false} MatchesAreUnique(len: Matcher, s: string, pos: nat, fs: seq<Found>, gs: seq<Found>)
    requires AreMatches(len, s, pos, fs) && AreMatches(len, s, pos, gs)
    ensures fs == gs
    decreases |fs|
  {
    SameEmptiness(len, s, pos, fs, gs);
    if fs != [] {
      SameNext(len, s, pos, fs[0], gs[0]);
      MatchesAreUnique(len, s, fs[0].end, fs[1..], gs[1..]);
      SameByParts(fs, gs);
    }
  }

  lemma SameByParts<T>(a: seq<T>, b: seq<T>)
    requires a != [] && b != [] && a[0] == b[0] && a[1..] == b[1..]
    ensures a == b
  {
    assert a == [a[0]] + a[1..] && b == [b[0]] + b[1..];
  }

  lemma SameEmptiness(len: Matcher, s: string, pos: nat, fs: seq<Found>, gs: seq<Found>)
    requires AreMatches(len, s, pos, fs) && AreMatches(len, s, pos, gs)
    ensures fs == [] <==> gs == []
  {
    if fs != [] { SomeMatch(len, s, pos, fs[0]); }
    if gs != [] { SomeMatch(len, s, pos, gs[0]); }
  }

  lemma SomeMatch(len: Matcher, s: string, from: nat, f: Found)
    requires IsNext(len, s, from, f)
    ensures !NoneFrom(len, s, from, |s| + 1)
  {
    assert LengthAt(len, s, f.start) > 0;
  }

  lemma SameNext(len: Matcher, s: string, from: nat, f: Found, g: Found)
    requires IsNext(len, s, from, f) && IsNext(len, s, from, g)
    ensures f == g
  {
    NotBefore(len, s, from, f, g);
    NotBefore(len, s, from, g, f);
  }

  lemma NotBefore(len: Matcher, s: string, from: nat, f: Found, g: Found)
    requires IsNext(len, s, from, f) && IsNext(len, s, from, g)
    ensures f.start >= g.start
  {
    assert LengthAt(len, s, f.start) > 0;
  }

  lemma Drop(s: string, pos: nat, n: nat)
    requires pos + n <= |s|
    ensures s[pos..][n..] == s[pos + n..]
  {
  }
}
