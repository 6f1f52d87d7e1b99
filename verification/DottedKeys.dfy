/** Splitting dotted option keys. */
module DottedKeys {
  import opened Basics

  /** The non-empty parts of `k` between dots, when `cur` has been read of the current part. */
  function SplitFrom(k: string, cur: string): seq<string>
    decreases |k|
  {
    if k == [] then (if cur == [] then [] else [cur])
    else if k[0] == '.' then (if cur == [] then [] else [cur]) + SplitFrom(k[1..], [])
    else SplitFrom(k[1..], cur + [k[0]])
  }

  /** Parts with dots between them, empty parts included. */
  function JoinDot(parts: seq<string>): string
    requires parts != []
  {
    parts[0] + (if |parts| == 1 then [] else ['.'] + JoinDot(parts[1..]))
  }

  ghost predicate DotFree(parts: seq<string>) {
    forall i :: 0 <= i < |parts| ==> '.' !in parts[i]
  }

  /** The parts that are not empty, in order. */
  function NonEmpty(parts: seq<string>): seq<string>
  {
    if parts == [] then [] else (if parts[0] == [] then [] else [parts[0]]) + NonEmpty(parts[1..])
  }

  lemma {:induction false} SplitPart(part: string, rest: string, cur: string)
    requires '.' !in part
    ensures SplitFrom(part + rest, cur) == SplitFrom(rest, cur + part)
    decreases |part|
  {
    if part == [] {
      assert part + rest == rest && cur + part == cur;
    } else {
      assert (part + rest)[1..] == part[1..] + rest;
      Regroup(cur, [part[0]], part[1..]);
      assert [part[0]] + part[1..] == part;
      SplitPart(part[1..], rest, cur + [part[0]]);
    }
  }

  /** Whatever parts a key has between its dots, splitting keeps those that are not empty. */
  lemma {:induction false} SplitKeepsNonEmpty(parts: seq<string>)
    requires parts != [] && DotFree(parts)
    ensures SplitFrom(JoinDot(parts), []) == NonEmpty(parts)
    decreases |parts|
  {
    var rest := if |parts| == 1 then [] else ['.'] + JoinDot(parts[1..]);
    SplitPart(parts[0], rest, []);
    assert [] + parts[0] == parts[0];
    if |parts| > 1 {
      SplitKeepsNonEmpty(parts[1..]);
      assert rest[1..] == JoinDot(parts[1..]);
    }
  }

  /** Every key is a list of parts between dots. */
  lemma {:induction false} EveryKeyIsJoined(k: string) returns (parts: seq<string>)
    ensures parts != [] && DotFree(parts) && JoinDot(parts) == k
  {
    if k == [] {
      parts := [[]];
    } else {
      var rest := EveryKeyIsJoined(k[1..]);
      if k[0] == '.' {
        parts := [[]] + rest;
        assert parts[1..] == rest;
      } else {
        parts := [[k[0]] + rest[0]] + rest[1..];
        assert parts[1..] == rest[1..];
        Regroup([k[0]], rest[0], if |rest| == 1 then [] else ['.'] + JoinDot(rest[1..]));
      }
      assert k == [k[0]] + k[1..];
    }
  }

  method SplitDot(k: string) returns (parts: seq<string>)
    ensures parts == SplitFrom(k, [])
    ensures forall ps :: ps != [] && DotFree(ps) && JoinDot(ps) == k ==> parts == NonEmpty(ps)
  {
    forall ps | ps != [] && DotFree(ps) && JoinDot(ps) == k ensures SplitFrom(k, []) == NonEmpty(ps) {
      SplitKeepsNonEmpty(ps);
    }
    parts := [];
    var cur: string := [];
    assert k[0..] == k;
    for i := 0 to |k|
      invariant parts + SplitFrom(k[i..], cur) == SplitFrom(k, [])
    {
      var c := k[i];
      assert k[i..][0] == c && k[i..][1..] == k[i + 1..];
      if c == '.' {
        if |cur| != 0 {
          parts := parts + [cur];
        }
        cur := [];
      } else {
        cur := cur + [c];
      }
    }
    if |cur| != 0 {
      parts := parts + [cur];
    }
  }

  /** A key that starts with anything but a dot has at least one part. */
  lemma {:induction false} SplitIsNotEmpty(k: string, cur: string)
    requires cur != [] || (k != [] && k[0] != '.')
    ensures SplitFrom(k, cur) != []
    decreases |k|
  {
    if k != [] && k[0] != '.' {
      SplitIsNotEmpty(k[1..], cur + [k[0]]);
    }
  }
}
