/**
 * Deterministic scanners for the regular expressions of the model list. The character classes make the leftmost-greedy
 * choice of ECMAScript regular expressions (section 22.2.2 of ECMA-262) unique.
 */
module KeyScanner {
  import opened Basics

  // ---------------------------------------------------------------- character classes

  predicate IsAlnum(c: char) {
    'a' <= c <= 'z' || 'A' <= c <= 'Z' || '0' <= c <= '9'
  }

  predicate IsSpace(c: char) {
    c == ' ' || '\U{09}' <= c <= '\U{0D}'
  }

  predicate IsNameChar(c: char) { IsAlnum(c) || c == '-' || c == '_' }

  predicate IsVersionChar(c: char) { IsNameChar(c) || c == '/' }

  predicate IsNotClose(c: char) { c != ')' }

  predicate IsKeyStart(c: char) { IsAlnum(c) || c == '_' }

  predicate IsKeyChar(c: char) { IsKeyStart(c) || c == '.' }

  predicate IsValueChar(c: char) { c != ',' && !IsSpace(c) }

  predicate All(s: string, p: char -> bool) {
    forall i :: 0 <= i < |s| ==> p(s[i])
  }

  /** The length of the longest prefix of `s` within the class `p`. */
  function Span(s: string, p: char -> bool): (n: nat)
    ensures n <= |s|
  {
    if s == [] || !p(s[0]) then 0 else 1 + Span(s[1..], p)
  }

  lemma {:induction false} SpanIs(s: string, p: char -> bool, n: nat)
    requires n <= |s| && All(s[..n], p) && (n < |s| ==> !p(s[n]))
    ensures Span(s, p) == n
  {
    if n > 0 {
      assert s[..n][0] == s[0];
      assert s[1..][..n - 1] == s[..n][1..];
      SpanIs(s[1..], p, n - 1);
    }
  }

  lemma {:induction false} SpanStops(s: string, p: char -> bool)
    ensures All(s[..Span(s, p)], p)
    ensures Span(s, p) < |s| ==> !p(s[Span(s, p)])
  {
    if s != [] && p(s[0]) {
      SpanStops(s[1..], p);
      var n := Span(s[1..], p);
      assert s[..n + 1] == [s[0]] + s[1..][..n];
    }
  }

  // ---------------------------------------------------------------- name:version(options)

  datatype KeyMatch = KeyMatch(name: string, version: string, options: string, length: nat)

  /** The text between the parentheses at the start of `s`; empty if there is no such group. */
  function OptionGroup(s: string): (group: string)
    ensures group != [] ==> |group| + 2 <= |s|
  {
    if s == [] || s[0] != '(' then []
    else
      var b := Span(s[1..], IsNotClose);
      if b == 0 || 1 + b == |s| then [] else s[1..1 + b]
  }

  /** The match that starts at the first character of `s`. */
  function MatchKey(s: string): (m: Option<KeyMatch>)
    ensures m.Some? ==> 0 < m.value.length <= |s|
  {
    var n := Span(s, IsNameChar);
    if n == 0 || n == |s| || s[n] != ':' then None
    else
      var rest := s[n + 1..];
      var v := Span(rest, IsVersionChar);
      if v == 0 then None
      else
        var group := OptionGroup(rest[v..]);
        Some(KeyMatch(s[..n], rest[..v], group, n + 1 + v + (if group == [] then 0 else |group| + 2)))
  }

  /** The leftmost match in `s`, with the text after it. */
  function SearchKey(s: string): (found: Option<(KeyMatch, string)>)
    ensures found.Some? ==> |found.value.1| < |s|
  {
    match MatchKey(s)
    case Some(m) => Some((m, s[m.length..]))
    case None => if s == [] then None else SearchKey(s[1..])
  }

  // ---------------------------------------------------------------- key = value

  datatype OptionMatch = OptionMatch(key: string, value: string, length: nat)

  function MatchOption(s: string): (m: Option<OptionMatch>)
    ensures m.Some? ==> 0 < m.value.length <= |s| && m.value.value != [] && m.value.key != [] && IsKeyStart(m.value.key[0])
  {
    if s == [] || !IsKeyStart(s[0]) then None else AfterKey(s, 1 + Span(s[1..], IsKeyChar))
  }

  /** The match whose key is the first `k` characters. */
  function AfterKey(s: string, k: nat): (m: Option<OptionMatch>)
    requires k <= |s|
    ensures m.Some? ==> m.value.key == s[..k] && k < m.value.length <= |s| && m.value.value != []
  {
    var a := k + Span(s[k..], IsSpace);
    if a == |s| || s[a] != '=' then None else AfterEquals(s, k, a + 1)
  }

  function AfterEquals(s: string, k: nat, from: nat): (m: Option<OptionMatch>)
    requires k < from <= |s|
    ensures m.Some? ==> m.value.key == s[..k] && k < m.value.length <= |s| && m.value.value != []
  {
    var b := from + Span(s[from..], IsSpace);
    var v := Span(s[b..], IsValueChar);
    if v == 0 then None else Some(OptionMatch(s[..k], s[b..b + v], b + v))
  }

  function SearchOption(s: string): (found: Option<(OptionMatch, string)>)
    ensures found.Some? ==> |found.value.1| < |s| && found.value.0.key != [] && IsKeyStart(found.value.0.key[0])
  {
    match MatchOption(s)
    case Some(m) => Some((m, s[m.length..]))
    case None => if s == [] then None else SearchOption(s[1..])
  }

  // ---------------------------------------------------------------- what the regular expressions ask for

  /** `s` starts with a name, a colon and a version. */
  ghost predicate KeyAt(s: string, name: string, version: string) {
    && name != [] && All(name, IsNameChar) && version != [] && All(version, IsVersionChar)
    && name + [':'] + version <= s
  }

  /** The scanner matches whenever there is a name and a version, finds the only name, and the longest version. */
  lemma MatchKeyIsGreedy(s: string, name: string, version: string)
    requires KeyAt(s, name, version)
    ensures MatchKey(s).Some?
    ensures name == MatchKey(s).value.name && version <= MatchKey(s).value.version
  {
    var n := |name|;
    KeyParts(s, name, version);
    SpanIs(s, IsNameChar, n);
    SpanAtLeast(s[n + 1..], IsVersionChar, |version|);
  }

  lemma KeyParts(s: string, name: string, version: string)
    requires name + [':'] + version <= s
    ensures |name| < |s| && s[..|name|] == name && s[|name|] == ':'
    ensures version <= s[|name| + 1..]
  {
    var all := name + [':'] + version;
    assert s[..|all|] == all;
    assert s[..|name|] == all[..|name|] && s[|name|] == all[|name|];
    assert s[|name| + 1..][..|version|] == all[|name| + 1..];
  }

  lemma {:induction false} SpanAtLeast(s: string, p: char -> bool, n: nat)
    requires n <= |s| && All(s[..n], p)
    ensures Span(s, p) >= n
  {
    if n > 0 {
      assert s[..n][0] == s[0];
      assert s[1..][..n - 1] == s[..n][1..];
      SpanAtLeast(s[1..], p, n - 1);
    }
  }

  lemma HeadAndRest(s: string, n: nat, v: nat)
    requires n + 1 + v <= |s| && s[n] == ':'
    ensures s[..n + 1 + v] == s[..n] + [':'] + s[n + 1..][..v]
    ensures s[n + 1..][v..] == s[n + 1 + v..]
  {
  }

  /** Where the name and the version of a match end. */
  lemma MatchKeyParts(s: string) returns (n: nat, v: nat)
    requires MatchKey(s).Some?
    ensures 0 < n && 0 < v && n + 1 + v <= |s| && s[n] == ':'
    ensures n == Span(s, IsNameChar) && v == Span(s[n + 1..], IsVersionChar)
    ensures var group := OptionGroup(s[n + 1..][v..]);
            var length := n + 1 + v + (if group == [] then 0 else |group| + 2);
            MatchKey(s) == Some(KeyMatch(s[..n], s[n + 1..][..v], group, length))
  {
    n := Span(s, IsNameChar);
    v := Span(s[n + 1..], IsVersionChar);
  }

  lemma MatchKeyHead(s: string)
    requires MatchKey(s).Some?
    ensures var m := MatchKey(s).value;
            var head := |m.name| + 1 + |m.version|;
            && head <= |s| && s[..head] == m.name + [':'] + m.version
            && All(m.name, IsNameChar) && All(m.version, IsVersionChar) && m.name != [] && m.version != []
            && m.options == OptionGroup(s[head..])
            && m.length == head + (if m.options == [] then 0 else |m.options| + 2)
  {
    var n, v := MatchKeyParts(s);
    SpanStops(s, IsNameChar);
    SpanStops(s[n + 1..], IsVersionChar);
    HeadAndRest(s, n, v);
  }

  /** What it returns is a match: the text up to its length is a name, a colon, a version, and a group if one is taken. */
  lemma MatchKeyIsSound(s: string)
    requires MatchKey(s).Some?
    ensures var m := MatchKey(s).value;
            && KeyAt(s, m.name, m.version) && All(m.options, IsNotClose)
            && s[..m.length] == m.name + [':'] + m.version + (if m.options == [] then [] else ['('] + m.options + [')'])
  {
    MatchKeyHead(s);
    HeadIsSound(s, MatchKey(s).value);
  }

  lemma HeadIsSound(s: string, m: KeyMatch)
    requires var head := |m.name| + 1 + |m.version|;
             && head <= |s| && s[..head] == m.name + [':'] + m.version
             && All(m.name, IsNameChar) && All(m.version, IsVersionChar) && m.name != [] && m.version != []
             && m.options == OptionGroup(s[head..])
             && m.length == head + (if m.options == [] then 0 else |m.options| + 2)
    ensures KeyAt(s, m.name, m.version) && All(m.options, IsNotClose) && m.length <= |s|
    ensures s[..m.length] == m.name + [':'] + m.version + (if m.options == [] then [] else ['('] + m.options + [')'])
  {
    KeyIsPrefix(s, m.name, m.version);
    HeadAndGroup(s, |m.name| + 1 + |m.version|, m.options);
  }

  lemma HeadAndGroup(s: string, head: nat, group: string)
    requires head <= |s| && group == OptionGroup(s[head..])
    ensures All(group, IsNotClose)
    ensures group != [] ==> head + |group| + 2 <= |s| && s[..head + |group| + 2] == s[..head] + (['('] + group + [')'])
  {
    if group != [] {
      GroupIsSound(s[head..]);
      TakeMore(s, head, |group| + 2);
    }
  }

  lemma KeyIsPrefix(s: string, name: string, version: string)
    requires |name| + 1 + |version| <= |s| && s[..|name| + 1 + |version|] == name + [':'] + version
    ensures name + [':'] + version <= s
  {
  }

  lemma TakeMore(s: string, i: nat, n: nat)
    requires i + n <= |s|
    ensures s[..i + n] == s[..i] + s[i..][..n]
  {
  }

  lemma GroupIsSound(s: string)
    requires OptionGroup(s) != []
    ensures var g := OptionGroup(s);
            All(g, IsNotClose) && s[..|g| + 2] == ['('] + g + [')']
  {
    var g := OptionGroup(s);
    SpanStops(s[1..], IsNotClose);
    assert s[1..][..|g|] == g && s[1..][|g|] == s[1 + |g|];
  }

  lemma GroupIsGreedy(s: string, body: string)
    requires body != [] && All(body, IsNotClose) && ['('] + body + [')'] <= s
    ensures OptionGroup(s) == body
  {
    var all := ['('] + body + [')'];
    assert s[..|all|] == all;
    assert s[1..][..|body|] == all[1..1 + |body|] == body;
    assert s[1..][|body|] == all[1 + |body|];
    SpanIs(s[1..], IsNotClose, |body|);
  }

  /** The search takes the leftmost place where there is a match, and fails only if there is none. */
  lemma {:induction false} SearchKeyIsLeftmost(s: string, i: nat)
    requires i <= |s| && MatchKey(s[i..]).Some?
    requires forall j :: 0 <= j < i ==> MatchKey(s[j..]).None?
    ensures SearchKey(s) == Some((MatchKey(s[i..]).value, s[i..][MatchKey(s[i..]).value.length..]))
  {
    if i == 0 {
      assert s[0..] == s;
    } else {
      assert s[0..] == s;
      assert s[1..][i - 1..] == s[i..];
      forall j | 0 <= j < i - 1 ensures MatchKey(s[1..][j..]).None? {
        assert s[1..][j..] == s[j + 1..];
      }
      SearchKeyIsLeftmost(s[1..], i - 1);
    }
  }

  lemma {:induction false} SearchKeyFails(s: string)
    requires forall j :: 0 <= j <= |s| ==> MatchKey(s[j..]).None?
    ensures SearchKey(s).None?
  {
    assert s[0..] == s;
    if s != [] {
      forall j | 0 <= j <= |s[1..]| ensures MatchKey(s[1..][j..]).None? {
        assert s[1..][j..] == s[j + 1..];
      }
      SearchKeyFails(s[1..]);
    }
  }

  // ---------------------------------------------------------------- the same for options

  /** `s` starts with a key, an equals sign with white space around it, and a value. */
  ghost predicate OptionAt(s: string, key: string, before: string, after: string, value: string) {
    && key != [] && IsKeyStart(key[0]) && All(key, IsKeyChar)
    && All(before, IsSpace) && All(after, IsSpace)
    && value != [] && All(value, IsValueChar)
    && key + before + ['='] + after + value <= s
  }

  /** The scanner matches whenever an option stands there, finds the only key, and the longest value. */
  lemma MatchOptionIsGreedy(s: string, key: string, before: string, after: string, value: string)
    requires OptionAt(s, key, before, after, value)
    ensures MatchOption(s).Some?
    ensures MatchOption(s).value.key == key && value <= MatchOption(s).value.value
  {
    var a, b := OptionParts(s, key, before, after, value);
    KeySpan(s, key);
    KeyAtStart(s, |key|);
    AfterKeyIsGreedy(s, |key|, before, a, after, b, value);
  }

  lemma KeyAtStart(s: string, k: nat)
    requires s != [] && IsKeyStart(s[0]) && k == 1 + Span(s[1..], IsKeyChar)
    ensures MatchOption(s) == AfterKey(s, k)
  {
  }

  lemma AfterKeyIsGreedy(s: string, k: nat, before: string, a: nat, after: string, b: nat, value: string)
    requires All(before, IsSpace) && All(after, IsSpace) && value != [] && All(value, IsValueChar)
    requires a == k + |before| && b == a + 1 + |after| && b + |value| <= |s|
    requires s[k..a] == before && s[a] == '=' && s[a + 1..b] == after && s[b..b + |value|] == value && !IsSpace(s[b])
    ensures AfterKey(s, k).Some? && value <= AfterKey(s, k).value.value
  {
    BeforeEquals(s, k, before, a);
    AfterEqualsIsGreedy(s, k, a + 1, after, value);
  }

  lemma BeforeEquals(s: string, k: nat, before: string, a: nat)
    requires a == k + |before| && a < |s| && s[k..a] == before && All(before, IsSpace) && s[a] == '='
    ensures AfterKey(s, k) == AfterEquals(s, k, a + 1)
  {
    SpanOfPart(s, k, before, IsSpace);
    EqualsAt(s, k, a);
  }

  lemma EqualsAt(s: string, k: nat, a: nat)
    requires k <= a < |s| && a == k + Span(s[k..], IsSpace) && s[a] == '='
    ensures AfterKey(s, k) == AfterEquals(s, k, a + 1)
  {
  }

  lemma AfterEqualsIsGreedy(s: string, k: nat, from: nat, after: string, value: string)
    requires k < from && All(after, IsSpace) && value != [] && All(value, IsValueChar)
    requires var b := from + |after|;
             b + |value| <= |s| && s[from..b] == after && s[b..b + |value|] == value && !IsSpace(s[b])
    ensures AfterEquals(s, k, from).Some? && value <= AfterEquals(s, k, from).value.value
  {
    SpanOfPart(s, from, after, IsSpace);
    var v := LongerSpan(s, from + |after|, value, IsValueChar);
  }

  lemma LongerSpan(s: string, from: nat, part: string, p: char -> bool) returns (v: nat)
    requires from + |part| <= |s| && s[from..from + |part|] == part && All(part, p)
    ensures v == Span(s[from..], p) && |part| <= v && from + v <= |s| && part <= s[from..from + v]
  {
    v := Span(s[from..], p);
    assert s[from..][..|part|] == part;
    SpanAtLeast(s[from..], p, |part|);
    assert s[from..from + v][..|part|] == part;
  }

  lemma OptionParts(s: string, key: string, before: string, after: string, value: string) returns (a: nat, b: nat)
    requires OptionAt(s, key, before, after, value)
    ensures a == |key| + |before| && b == a + 1 + |after| && b + |value| <= |s|
    ensures key < s && s[|key|..a] == before && s[a] == '=' && s[a + 1..b] == after && s[b..b + |value|] == value
    ensures !IsKeyChar(s[|key|]) && !IsSpace(s[b])
  {
    var all := key + before + ['='] + after + value;
    var k := |key|;
    a := k + |before|;
    b := a + 1 + |after|;
    assert s[..|all|] == all;
    assert s[..k] == all[..k] == key && s[k..a] == all[k..a] == before && s[a] == all[a];
    assert s[a + 1..b] == all[a + 1..b] == after && s[b..b + |value|] == all[b..] == value;
    assert s[b] == value[0];
    if before != [] { assert s[k] == before[0]; }
  }

  lemma KeySpan(s: string, key: string)
    requires key != [] && All(key, IsKeyChar) && key < s && !IsKeyChar(s[|key|])
    ensures 1 + Span(s[1..], IsKeyChar) == |key|
  {
    assert s[1..][..|key| - 1] == key[1..];
    SpanIs(s[1..], IsKeyChar, |key| - 1);
  }

  lemma SpanOfPart(s: string, from: nat, part: string, p: char -> bool)
    requires from + |part| < |s| && s[from..from + |part|] == part && All(part, p) && !p(s[from + |part|])
    ensures Span(s[from..], p) == |part|
  {
    assert s[from..][..|part|] == part;
    SpanIs(s[from..], p, |part|);
  }

  /** What it returns is an option. */
  lemma MatchOptionIsSound(s: string) returns (before: string, after: string)
    requires MatchOption(s).Some?
    ensures OptionAt(s, MatchOption(s).value.key, before, after, MatchOption(s).value.value)
    ensures MatchOption(s).value.length ==
            |MatchOption(s).value.key| + |before| + 1 + |after| + |MatchOption(s).value.value|
  {
    var k := 1 + Span(s[1..], IsKeyChar);
    KeyIsKey(s);
    before, after := AfterKeyIsSound(s, k);
  }

  lemma AfterKeyIsSound(s: string, k: nat) returns (before: string, after: string)
    requires k <= |s| && AfterKey(s, k).Some?
    ensures var m := AfterKey(s, k).value;
            && All(before, IsSpace) && All(after, IsSpace) && All(m.value, IsValueChar)
            && m.length == k + |before| + 1 + |after| + |m.value|
            && s[..k] + before + ['='] + after + m.value <= s
  {
    var a := k + Span(s[k..], IsSpace);
    before := s[k..a];
    PartOfSpan(s, k, IsSpace);
    var b;
    after, b := AfterEqualsIsSound(s, k, a + 1);
    FiveParts(s, k, a, b, AfterKey(s, k).value.length);
  }

  lemma AfterEqualsIsSound(s: string, k: nat, from: nat) returns (after: string, b: nat)
    requires k < from <= |s| && AfterEquals(s, k, from).Some?
    ensures var m := AfterEquals(s, k, from).value;
            && from <= b <= m.length <= |s|
            && after == s[from..b] && All(after, IsSpace)
            && m.value == s[b..m.length] && All(m.value, IsValueChar)
  {
    b := from + Span(s[from..], IsSpace);
    after := s[from..b];
    PartOfSpan(s, from, IsSpace);
    PartOfSpan(s, b, IsValueChar);
  }

  lemma KeyIsKey(s: string)
    requires s != [] && IsKeyStart(s[0])
    ensures All(s[..1 + Span(s[1..], IsKeyChar)], IsKeyChar)
  {
    SpanStops(s[1..], IsKeyChar);
    var n := Span(s[1..], IsKeyChar);
    assert s[..1 + n] == [s[0]] + s[1..][..n];
  }

  lemma PartOfSpan(s: string, from: nat, p: char -> bool)
    requires from <= |s|
    ensures All(s[from..from + Span(s[from..], p)], p)
  {
    SpanStops(s[from..], p);
    assert s[from..][..Span(s[from..], p)] == s[from..from + Span(s[from..], p)];
  }

  lemma FiveParts(s: string, k: nat, a: nat, b: nat, end: nat)
    requires k <= a < b <= end <= |s| && s[a] == '='
    ensures s[..k] + s[k..a] + ['='] + s[a + 1..b] + s[b..end] <= s
  {
    assert s[..k] + s[k..a] + ['='] + s[a + 1..b] + s[b..end] == s[..end];
  }

  lemma {:induction false} SearchOptionIsLeftmost(s: string, i: nat)
    requires i <= |s| && MatchOption(s[i..]).Some?
    requires forall j :: 0 <= j < i ==> MatchOption(s[j..]).None?
    ensures SearchOption(s) == Some((MatchOption(s[i..]).value, s[i..][MatchOption(s[i..]).value.length..]))
  {
    assert s[0..] == s;
    if i > 0 {
      assert s[1..][i - 1..] == s[i..];
      forall j | 0 <= j < i - 1 ensures MatchOption(s[1..][j..]).None? {
        assert s[1..][j..] == s[j + 1..];
      }
      SearchOptionIsLeftmost(s[1..], i - 1);
    }
  }

  // ---------------------------------------------------------------- the characters of each class

  const LOWER := "abcdefghijklmnopqrstuvwxyz"
  const UPPER := "ABCDEFGHIJKLMNOPQRSTUVWXYZ"
  const DIGITS := "0123456789"

  lemma LowerIsListed(c: char)
    ensures 'a' <= c <= 'z' <==> c in LOWER
  {
    if 'a' <= c <= 'z' {
      assert LOWER[c as int - 'a' as int] == c;
    }
  }

  lemma UpperIsListed(c: char)
    ensures 'A' <= c <= 'Z' <==> c in UPPER
  {
    if 'A' <= c <= 'Z' {
      assert UPPER[c as int - 'A' as int] == c;
    }
  }

  lemma DigitIsListed(c: char)
    ensures '0' <= c <= '9' <==> c in DIGITS
  {
    if '0' <= c <= '9' {
      assert DIGITS[c as int - '0' as int] == c;
    }
  }

  predicate IsListed(c: char) {
    c in LOWER || c in UPPER || c in DIGITS
  }

  lemma AlnumIsListed(c: char)
    ensures IsAlnum(c) <==> IsListed(c)
  {
    LowerIsListed(c);
    UpperIsListed(c);
    DigitIsListed(c);
  }

  /** The classes of the expressions, character by character. */
  lemma CharacterClasses(c: char)
    ensures IsNameChar(c) <==> IsListed(c) || c == '-' || c == '_'
    ensures IsVersionChar(c) <==> IsListed(c) || c == '-' || c == '_' || c == '/'
    ensures IsKeyStart(c) <==> IsListed(c) || c == '_'
    ensures IsKeyChar(c) <==> IsListed(c) || c == '_' || c == '.'
    ensures IsSpace(c) <==> c in [' ', '\t', '\n', '\U{0B}', '\U{0C}', '\r']
    ensures IsValueChar(c) <==> c !in [',', ' ', '\t', '\n', '\U{0B}', '\U{0C}', '\r']
    ensures IsNotClose(c) <==> c != ')'
  {
    AlnumIsListed(c);
  }
}
