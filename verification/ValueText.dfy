/** Option values as text: booleans, 64-bit integers, anything else a string. */
module ValueText {
  import opened Basics

  const INT64_MIN := -0x8000_0000_0000_0000
  const INT64_MAX := 0x7fff_ffff_ffff_ffff

  predicate IsDigit(c: char) { '0' <= c <= '9' }

  predicate AllDigits(s: string) {
    forall i :: 0 <= i < |s| ==> IsDigit(s[i])
  }

  function DigitValue(c: char): nat
    requires IsDigit(c)
  {
    c as int - '0' as int
  }

  function Magnitude(digits: string): nat
    requires AllDigits(digits)
  {
    if digits == [] then 0
    else 10 * Magnitude(digits[..|digits| - 1]) + DigitValue(digits[|digits| - 1])
  }

  /** stoll on an optional minus sign and digits: none if there is no digit or the value does not fit. */
  function Stoll(s: string): Option<int>
    requires AllDigits(if s != [] && s[0] == '-' then s[1..] else s)
  {
    var negative := s != [] && s[0] == '-';
    var digits := if negative then s[1..] else s;
    var magnitude: int := Magnitude(digits);
    var value := if negative then -magnitude else magnitude;
    if digits != [] && INT64_MIN <= value <= INT64_MAX then Some(value) else None
  }

  /** The whole text is an optional minus sign followed by at least one digit. */
  predicate IsIntText(s: string) {
    var digits := if s != [] && s[0] == '-' then s[1..] else s;
    digits != [] && AllDigits(digits)
  }

  function InferValue(raw: string): Json {
    if raw == "true" then Bool(true)
    else if raw == "false" then Bool(false)
    else if IsIntText(raw) then
      match Stoll(raw)
      case Some(n) => Int(n)
      case None => Str(raw)
    else Str(raw)
  }

  /** The hand-written scanner of the readback path returns, on every string, what the regular expression gives. */
  method InferReadbackValue(raw: string) returns (value: Json)
    ensures value == InferValue(raw)
  {
    if raw == "true" {
      return Bool(true);
    }
    if raw == "false" {
      return Bool(false);
    }
    if |raw| != 0 {
      var numeric := raw[0] == '-' || '0' <= raw[0] <= '9';
      if numeric {
        var i := 1;
        while i < |raw|
          invariant 1 <= i <= |raw|
          invariant forall j :: 1 <= j < i ==> IsDigit(raw[j])
        {
          if raw[i] < '0' || raw[i] > '9' {
            numeric := false;
            break;
          }
          i := i + 1;
        }
        if numeric {
          var parsed := Stoll(raw);
          if parsed.Some? {
            return Int(parsed.value);
          }
        } else {
          assert !IsDigit(raw[i]) && raw[1..][i - 1] == raw[i];
        }
      }
    }
    value := Str(raw);
  }

  // ---------------------------------------------------------------- printing

  function PrintNat(n: nat): (s: string)
    ensures s != [] && AllDigits(s)
  {
    var last := [('0' as int + n % 10) as char];
    if n < 10 then last else PrintNat(n / 10) + last
  }

  function PrintInt(n: int): string {
    if n < 0 then "-" + PrintNat(-n) else PrintNat(n)
  }

  lemma {:induction false} MagnitudeOfPrinted(n: nat)
    ensures Magnitude(PrintNat(n)) == n
  {
    var last := [('0' as int + n % 10) as char];
    if n < 10 {
      assert last[..0] == [];
    } else {
      MagnitudeOfPrinted(n / 10);
      assert PrintNat(n)[..|PrintNat(n)| - 1] == PrintNat(n / 10);
    }
  }

  lemma IntTextIsNoWord(s: string)
    requires IsIntText(s)
    ensures s != "true" && s != "false"
  {
    assert s[0] == '-' || IsDigit(s[0]);
  }

  lemma StollOfPrinted(n: int)
    requires INT64_MIN <= n <= INT64_MAX
    ensures IsIntText(PrintInt(n)) && Stoll(PrintInt(n)) == Some(n)
  {
    var m: nat := if n < 0 then -n else n;
    var digits := PrintNat(m);
    MagnitudeOfPrinted(m);
    if n < 0 {
      assert PrintInt(n)[1..] == digits;
    } else {
      assert IsDigit(digits[0]);
    }
  }

  /** Every 64-bit integer is read back from its decimal form. */
  lemma IntRoundTrip(n: int)
    requires INT64_MIN <= n <= INT64_MAX
    ensures InferValue(PrintInt(n)) == Int(n)
  {
    StollOfPrinted(n);
    IntTextIsNoWord(PrintInt(n));
  }

  // ---------------------------------------------------------------- every text

  function Zeros(k: nat): (s: string)
    ensures |s| == k && forall i :: 0 <= i < k ==> s[i] == '0'
  {
    if k == 0 then [] else Zeros(k - 1) + ['0']
  }

  lemma {:induction false} MagnitudeOfConcat(a: string, b: string)
    requires AllDigits(a) && AllDigits(b)
    ensures AllDigits(a + b) && (Magnitude(a) == 0 ==> Magnitude(a + b) == Magnitude(b))
    decreases |b|
  {
    if b == [] {
      assert a + b == a;
    } else {
      var n := |b| - 1;
      MagnitudeOfConcat(a, b[..n]);
      assert (a + b)[..|a + b| - 1] == a + b[..n] && (a + b)[|a + b| - 1] == b[n];
    }
  }

  lemma {:induction false} MagnitudeOfZeros(k: nat)
    ensures AllDigits(Zeros(k)) && Magnitude(Zeros(k)) == 0
  {
    if k > 0 {
      MagnitudeOfZeros(k - 1);
      assert Zeros(k)[..k - 1] == Zeros(k - 1);
    }
  }

  function Signed(negative: bool, n: int): int {
    if negative then -n else n
  }

  /** The decimal text of an integer with any number of leading zeros. */
  function PaddedInt(negative: bool, zeros: nat, n: nat): string {
    (if negative then ['-'] else []) + (Zeros(zeros) + PrintNat(n))
  }

  lemma PaddedIsInt(negative: bool, zeros: nat, n: nat)
    ensures var s := PaddedInt(negative, zeros, n);
            var value := Signed(negative, n);
            && IsIntText(s) && s != "true" && s != "false"
            && Stoll(s) == (if INT64_MIN <= value <= INT64_MAX then Some(value) else None)
  {
    MagnitudeOfZeros(zeros);
    MagnitudeOfPrinted(n);
    MagnitudeOfConcat(Zeros(zeros), PrintNat(n));
    SignedDigits(negative, Zeros(zeros) + PrintNat(n), PaddedInt(negative, zeros, n));
    IntTextIsNoWord(PaddedInt(negative, zeros, n));
  }

  lemma SignedDigits(negative: bool, digits: string, s: string)
    requires digits != [] && AllDigits(digits) && s == (if negative then ['-'] else []) + digits
    ensures var value := Signed(negative, Magnitude(digits));
            IsIntText(s) && Stoll(s) == (if INT64_MIN <= value <= INT64_MAX then Some(value) else None)
  {
    if negative {
      assert s[1..] == digits;
    } else {
      assert s == digits && IsDigit(s[0]);
    }
  }

  /** A decimal integer, leading zeros or not, is a number if it fits 64 bits and the text itself otherwise. */
  lemma IntegersAreInferred(negative: bool, zeros: nat, n: nat)
    ensures var s := PaddedInt(negative, zeros, n);
            var value := Signed(negative, n);
            InferValue(s) == if -0x8000_0000_0000_0000 <= value < 0x8000_0000_0000_0000 then Int(value) else Str(s)
  {
    PaddedIsInt(negative, zeros, n);
  }

  /** The printed form has no leading zeros. */
  lemma PrintedIntegersAreInferred(n: int)
    ensures InferValue(PrintInt(n)) ==
            if -0x8000_0000_0000_0000 <= n < 0x8000_0000_0000_0000 then Int(n) else Str(PrintInt(n))
  {
    var m: nat := if n < 0 then -n else n;
    IntegersAreInferred(n < 0, 0, m);
    assert Zeros(0) + PrintNat(m) == PrintNat(m);
    assert PaddedInt(n < 0, 0, m) == PrintInt(n);
  }

  /** `s` is an optional minus sign and one or more of the ten digits. */
  ghost predicate IsDecimal(s: string) {
    exists digits: string :: digits != "" && (forall i :: 0 <= i < |digits| ==> digits[i] in "0123456789") &&
      (s == digits || s == "-" + digits)
  }

  /** Every decimal text is an integer with leading zeros. */
  lemma DecimalsArePadded(s: string) returns (negative: bool, zeros: nat, n: nat)
    requires IsDecimal(s)
    ensures s == PaddedInt(negative, zeros, n)
  {
    var digits: string :| digits != "" && (forall i :: 0 <= i < |digits| ==> digits[i] in "0123456789") &&
      (s == digits || s == "-" + digits);
    negative := s != digits;
    zeros, n := DigitsArePadded(digits);
    assert s == (if negative then ['-'] else []) + digits;
  }

  lemma {:induction false} DigitsArePadded(digits: string) returns (zeros: nat, n: nat)
    requires digits != [] && AllDigits(digits)
    ensures digits == Zeros(zeros) + PrintNat(n)
    decreases |digits|
  {
    var last := |digits| - 1;
    var d := DigitValue(digits[last]);
    if last == 0 {
      zeros, n := 0, d;
    } else {
      var z, m := DigitsArePadded(digits[..last]);
      assert digits == digits[..last] + [digits[last]];
      if m == 0 {
        zeros, n := z + 1, d;
        assert PrintNat(0) == ['0'];
      } else {
        zeros, n := z, 10 * m + d;
        assert PrintNat(n) == PrintNat(m) + [digits[last]];
      }
    }
  }

  /** What every text is taken for: the two words, a 64-bit integer, or a string. */
  lemma ValuesAreInferred(s: string)
    ensures s == "true" ==> InferValue(s) == Bool(true)
    ensures s == "false" ==> InferValue(s) == Bool(false)
    ensures s != "true" && s != "false" && !IsDecimal(s) ==> InferValue(s) == Str(s)
    ensures IsDecimal(s) ==> exists negative, zeros, n :: s == PaddedInt(negative, zeros, n)
  {
    if IsDecimal(s) {
      var negative, zeros, n := DecimalsArePadded(s);
    } else if IsIntText(s) {
      IntTextIsDecimal(s);
    }
  }

  lemma IntTextIsDecimal(s: string)
    requires IsIntText(s)
    ensures IsDecimal(s)
  {
    var digits := if s != [] && s[0] == '-' then s[1..] else s;
    forall i | 0 <= i < |digits| ensures digits[i] in "0123456789" {
      DigitIsListed(digits[i]);
    }
    assert s == digits || s == "-" + digits;
  }

  lemma DigitIsListed(c: char)
    ensures IsDigit(c) <==> c in "0123456789"
  {
    if IsDigit(c) {
      assert "0123456789"[c as int - '0' as int] == c;
    }
  }
}
