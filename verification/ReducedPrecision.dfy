/** Decoding the reduced-precision and packed element types of output tensors. */
module ReducedPrecision {

  import opened Basics
  import Bits

  /** A decoded floating-point value: the sign is kept apart, so that the two zeros differ. */
  datatype Number = NaN | Infinite(negative: bool) | Finite(negative: bool, magnitude: real)

  /** Field widths and conventions of an 8-bit float: `expBits + mantBits == 7`. */
  datatype Format = Format(expBits: nat, mantBits: nat, bias: int, hasInf: bool, fnuz: bool)

  const E5M2 := Format(5, 2, 15, true, false)
  const E5M2FNUZ := Format(5, 2, 16, false, true)
  const E4M3FN := Format(4, 3, 7, false, false)
  const E4M3FNUZ := Format(4, 3, 8, false, true)

  predicate IsFormat(f: Format) {
    f.expBits >= 1 && f.expBits + f.mantBits == 7
  }

  // ---------------------------------------------------------------- powers of two

  function TwoTo(n: nat): (p: nat)
    ensures p >= 1
  {
    if n == 0 then 1 else 2 * TwoTo(n - 1)
  }

  function Pow2(e: int): (p: real)
    ensures p > 0.0
    decreases if e < 0 then -e else e
  {
    if e == 0 then 1.0 else if e > 0 then 2.0 * Pow2(e - 1) else Pow2(e + 1) / 2.0
  }

  function Ldexp(x: real, e: int): real {
    x * Pow2(e)
  }

  function Fraction(mant: nat, mantBits: nat): real {
    mant as real / TwoTo(mantBits) as real
  }

  lemma Pow2Step(e: int)
    ensures Pow2(e + 1) == 2.0 * Pow2(e)
  {
  }

  lemma Pow2Scaled(e: int, n: nat)
    ensures Pow2(e) == TwoTo(n) as real * Pow2(e - n)
  {
    Pow2Up(e - n, n);
    DoubledIsScaled(n, Pow2(e - n));
  }

  function Doubled(n: nat, unit: real): real {
    if n == 0 then unit else 2.0 * Doubled(n - 1, unit)
  }

  lemma {:induction false} Pow2Up(k: int, n: nat)
    ensures Pow2(k + n) == Doubled(n, Pow2(k))
    decreases n
  {
    if n > 0 {
      Pow2Up(k, n - 1);
      Pow2Step(k + n - 1);
    }
  }

  lemma {:induction false} DoubledIsScaled(n: nat, unit: real)
    ensures Doubled(n, unit) == TwoTo(n) as real * unit
  {
    if n > 0 {
      DoubledIsScaled(n - 1, unit);
      DoubledProduct(TwoTo(n - 1), unit);
    }
  }

  lemma DoubledProduct(x: nat, unit: real)
    ensures 2.0 * (x as real * unit) == (2 * x) as real * unit
  {
  }

  lemma {:induction false} TwoToSum(m: nat, n: nat)
    ensures TwoTo(m + n) == TwoTo(m) * TwoTo(n)
  {
    if n > 0 {
      TwoToSum(m, n - 1);
    }
  }

  // ---------------------------------------------------------------- decoding

  /** The exponent and mantissa fields; shifting and masking are division and remainder by powers of two. */
  function ExpField(code: nat, expBits: nat, mantBits: nat): nat {
    (code / TwoTo(mantBits)) % TwoTo(expBits)
  }

  function MantField(code: nat, mantBits: nat): nat {
    code % TwoTo(mantBits)
  }

  /** The shifts and masks of the source, for both splits of a byte. */
  lemma FieldBits(b: bv8)
    ensures ExpField(b as int, 5, 2) == ((b >> 2) & 0x1F) as int && MantField(b as int, 2) == (b & 0x03) as int
    ensures ExpField(b as int, 4, 3) == ((b >> 3) & 0x0F) as int && MantField(b as int, 3) == (b & 0x07) as int
    ensures b as int >= 0x80 <==> b & 0x80 != 0
  {
    Powers();
    Bits.Shift2(b);
    Bits.Mask5(b >> 2);
    Bits.Mask2(b);
    Bits.Shift3(b);
    Bits.Mask4(b >> 3);
    Bits.Mask3(b);
    Bits.Bit7(b);
  }

  /** The magnitude of a pair of fields: subnormal below exponent one, normal from there on. */
  function FieldsMagnitude(exp: nat, mant: nat, mantBits: nat, bias: int): real {
    if exp == 0 then Ldexp(Fraction(mant, mantBits), 1 - bias)
    else Ldexp(1.0 + Fraction(mant, mantBits), exp - bias)
  }

  function Magnitude(code: nat, expBits: nat, mantBits: nat, bias: int): real {
    FieldsMagnitude(ExpField(code, expBits, mantBits), MantField(code, mantBits), mantBits, bias)
  }

  function DecodeFields(negative: bool, exp: nat, mant: nat, f: Format): Number {
    if !f.fnuz && exp == TwoTo(f.expBits) - 1 && f.hasInf then (if mant == 0 then Infinite(negative) else NaN)
    else if !f.fnuz && exp == TwoTo(f.expBits) - 1 && mant == TwoTo(f.mantBits) - 1 then NaN
    else Finite(negative, FieldsMagnitude(exp, mant, f.mantBits, f.bias))
  }

  function DecodeFloat8(byte: Byte, f: Format): Number {
    if f.fnuz && byte == 0x80 then NaN
    else DecodeFields(byte >= 0x80, ExpField(byte, f.expBits, f.mantBits), MantField(byte, f.mantBits), f)
  }

  // ---------------------------------------------------------------- spacing

  /** The exponent that scales a pair of fields: subnormals share that of the first binade. */
  function Binade(exp: nat): nat {
    if exp == 0 then 1 else exp
  }

  function Significand(exp: nat, mant: nat, mantBits: nat): nat {
    (if exp == 0 then 0 else TwoTo(mantBits)) + mant
  }

  /** Every magnitude is an integer times the unit of its binade. */
  lemma MagnitudeInUnits(exp: nat, mant: nat, mantBits: nat, bias: int)
    ensures FieldsMagnitude(exp, mant, mantBits, bias) ==
            Ldexp(Significand(exp, mant, mantBits) as real, Binade(exp) - bias - mantBits)
  {
    var e := Binade(exp) - bias;
    Pow2Scaled(e, mantBits);
    FractionIsExact(mant, mantBits);
    if exp == 0 {
      LdexpUnits(Fraction(mant, mantBits), mant, mantBits, e);
    } else {
      LdexpUnits(1.0 + Fraction(mant, mantBits), TwoTo(mantBits) + mant, mantBits, e);
    }
  }

  lemma FractionIsExact(mant: nat, mantBits: nat)
    ensures Fraction(mant, mantBits) * TwoTo(mantBits) as real == mant as real
    ensures (1.0 + Fraction(mant, mantBits)) * TwoTo(mantBits) as real == (TwoTo(mantBits) + mant) as real
  {
    FractionTimes(mant as real, TwoTo(mantBits) as real);
  }

  lemma FractionTimes(mant: real, scale: real)
    requires scale > 0.0
    ensures mant / scale * scale == mant
    ensures (1.0 + mant / scale) * scale == scale + mant
  {
  }

  lemma LdexpUnits(x: real, significand: nat, mantBits: nat, e: int)
    requires x * TwoTo(mantBits) as real == significand as real
    ensures Ldexp(x, e) == Ldexp(significand as real, e - mantBits)
  {
    Pow2Scaled(e, mantBits);
    ScaleTwice(x, TwoTo(mantBits) as real, Pow2(e - mantBits));
  }

  lemma ScaleTwice(x: real, scale: real, unit: real)
    ensures x * (scale * unit) == (x * scale) * unit
  {
  }

  /** What the fields of the next code are. */
  lemma NextFields(code: nat, expBits: nat, mantBits: nat)
    requires code + 1 < TwoTo(expBits + mantBits)
    ensures var (m, n) := (MantField(code, mantBits), MantField(code + 1, mantBits));
            var (e, d) := (ExpField(code, expBits, mantBits), ExpField(code + 1, expBits, mantBits));
            if m + 1 < TwoTo(mantBits) then n == m + 1 && d == e else n == 0 && d == e + 1
  {
    TwoToSum(expBits, mantBits);
    NoWrap(code, TwoTo(mantBits), TwoTo(expBits));
    NoWrap(code + 1, TwoTo(mantBits), TwoTo(expBits));
    NextQuotient(code, TwoTo(mantBits));
  }

  lemma NextQuotient(code: nat, scale: nat)
    requires scale >= 1
    ensures if code % scale + 1 < scale
            then (code + 1) / scale == code / scale && (code + 1) % scale == code % scale + 1
            else (code + 1) / scale == code / scale + 1 && (code + 1) % scale == 0
  {
    var q, m := code / scale, code % scale;
    if m + 1 < scale {
      Division(code + 1, scale, q, m + 1);
    } else {
      Division(code + 1, scale, q + 1, 0);
    }
  }

  lemma Division(x: int, d: int, q: int, r: int)
    requires d >= 1 && 0 <= r < d && x == q * d + r
    ensures x / d == q && x % d == r
  {
    var gap := x / d - q;
    assert gap * d == r - x % d;
    if gap >= 1 {
      MulMonotone(1, gap, d);
    } else if gap <= -1 {
      MulMonotone(gap, -1, d);
    }
  }

  /** Below 2^(expBits + mantBits) the mask of the exponent field cuts nothing off. */
  lemma NoWrap(code: nat, scale: nat, range: nat)
    requires scale >= 1 && code < range * scale
    ensures (code / scale) % range == code / scale
  {
    var q := code / scale;
    assert q * scale <= code;
    if q >= range {
      MulMonotone(range, q, scale);
    } else {
      Division(q, range, 0, q);
    }
  }

  /** One step in the fields is one unit of the lower binade. */
  lemma FieldsSpacing(exp: nat, mant: nat, nextExp: nat, nextMant: nat, mantBits: nat, bias: int)
    requires mant < TwoTo(mantBits)
    requires if mant + 1 < TwoTo(mantBits) then nextMant == mant + 1 && nextExp == exp
             else nextMant == 0 && nextExp == exp + 1
    ensures FieldsMagnitude(nextExp, nextMant, mantBits, bias) - FieldsMagnitude(exp, mant, mantBits, bias) ==
            Pow2(Binade(exp) - bias - mantBits)
  {
    MagnitudeInUnits(exp, mant, mantBits, bias);
    MagnitudeInUnits(nextExp, nextMant, mantBits, bias);
    SignificandStep(exp, mant, nextExp, nextMant, mantBits);
    var e := Binade(exp) - bias - mantBits;
    if Binade(nextExp) == Binade(exp) {
      OneUnit(Significand(exp, mant, mantBits), e);
    } else {
      NextBinade(TwoTo(mantBits), e);
    }
  }

  lemma SignificandStep(exp: nat, mant: nat, nextExp: nat, nextMant: nat, mantBits: nat)
    requires mant < TwoTo(mantBits)
    requires if mant + 1 < TwoTo(mantBits) then nextMant == mant + 1 && nextExp == exp
             else nextMant == 0 && nextExp == exp + 1
    ensures var (s, t) := (Significand(exp, mant, mantBits), Significand(nextExp, nextMant, mantBits));
            if Binade(nextExp) == Binade(exp) then t == s + 1
            else Binade(nextExp) == Binade(exp) + 1 && t == TwoTo(mantBits) && s == 2 * TwoTo(mantBits) - 1
  {
  }

  lemma OneUnit(s: nat, e: int)
    ensures Ldexp((s + 1) as real, e) - Ldexp(s as real, e) == Pow2(e)
  {
    Distribute(s as real, Pow2(e));
  }

  lemma NextBinade(scale: nat, e: int)
    requires scale >= 1
    ensures Ldexp(scale as real, e + 1) - Ldexp((2 * scale - 1) as real, e) == Pow2(e)
  {
    Pow2Step(e);
    Telescope(scale as real, Pow2(e));
  }

  lemma Distribute(s: real, unit: real)
    ensures (s + 1.0) * unit - s * unit == unit
  {
  }

  lemma Telescope(scale: real, unit: real)
    ensures scale * (2.0 * unit) - (2.0 * scale - 1.0) * unit == unit
  {
  }

  /** Consecutive codes decode exactly one unit apart, also across the subnormal and every exponent boundary. */
  lemma Spacing(code: nat, expBits: nat, mantBits: nat, bias: int)
    requires expBits >= 1 && code + 1 < TwoTo(expBits + mantBits)
    ensures Magnitude(code + 1, expBits, mantBits, bias) - Magnitude(code, expBits, mantBits, bias) ==
            Pow2(Binade(ExpField(code, expBits, mantBits)) - bias - mantBits)
  {
    NextFields(code, expBits, mantBits);
    FieldsSpacing(ExpField(code, expBits, mantBits), MantField(code, mantBits),
                  ExpField(code + 1, expBits, mantBits), MantField(code + 1, mantBits), mantBits, bias);
  }

  /** Decoding is strictly increasing in the magnitude code. */
  lemma {:induction false} StrictlyIncreasing(c: nat, d: nat, expBits: nat, mantBits: nat, bias: int)
    requires expBits >= 1 && c < d < TwoTo(expBits + mantBits)
    ensures Magnitude(c, expBits, mantBits, bias) < Magnitude(d, expBits, mantBits, bias)
    decreases d - c
  {
    Spacing(d - 1, expBits, mantBits, bias);
    if c < d - 1 {
      StrictlyIncreasing(c, d - 1, expBits, mantBits, bias);
    }
  }

  lemma ZeroCode(expBits: nat, mantBits: nat, bias: int)
    requires expBits >= 1
    ensures Magnitude(0, expBits, mantBits, bias) == 0.0
  {
    MagnitudeInUnits(0, 0, mantBits, bias);
    Division(0, TwoTo(mantBits), 0, 0);
    Division(0, TwoTo(expBits), 0, 0);
  }

  // ---------------------------------------------------------------- the sign bit

  /** The seven bits below the sign. */
  function Code(byte: Byte): nat {
    byte % 0x80
  }

  lemma SignIsMasked(byte: Byte, f: Format)
    requires IsFormat(f)
    ensures ExpField(byte, f.expBits, f.mantBits) == ExpField(Code(byte), f.expBits, f.mantBits)
    ensures MantField(byte, f.mantBits) == MantField(Code(byte), f.mantBits)
    ensures Code(byte) < TwoTo(f.expBits + f.mantBits)
  {
    var scale, range := TwoTo(f.mantBits), TwoTo(f.expBits);
    TwoToSum(f.expBits, f.mantBits);
    Powers();
    if byte >= 0x80 {
      assert byte == Code(byte) + range * scale;
      HighBitIsCutOff(Code(byte), scale, range);
    }
  }

  lemma HighBitIsCutOff(c: nat, scale: nat, range: nat)
    requires scale >= 1 && range >= 1 && c < range * scale
    ensures (c + range * scale) % scale == c % scale
    ensures (c + range * scale) / scale % range == c / scale % range
  {
    var q, m := c / scale, c % scale;
    assert c + range * scale == (q + range) * scale + m;
    Division(c + range * scale, scale, q + range, m);
    NoWrap(c, scale, range);
    AddRange(q, range);
  }

  lemma AddRange(q: nat, range: nat)
    requires q < range
    ensures (q + range) % range == q && q % range == q
  {
    Division(q + range, range, 1, q);
    Division(q, range, 0, q);
  }

  lemma Powers()
    ensures TwoTo(1) == 2 && TwoTo(2) == 4 && TwoTo(3) == 8 && TwoTo(4) == 16 && TwoTo(5) == 32 && TwoTo(7) == 128
  {
    assert TwoTo(3) == 2 * TwoTo(2);
    assert TwoTo(4) == 2 * TwoTo(3);
    assert TwoTo(5) == 2 * TwoTo(4);
    assert TwoTo(6) == 2 * TwoTo(5);
  }

  function Value(n: Number): real
    requires n.Finite?
  {
    if n.negative then -n.magnitude else n.magnitude
  }

  /** Flipping the sign bit flips the sign and nothing else, except that the fnuz formats have no negative zero. */
  lemma SignSymmetric(byte: Byte, f: Format)
    requires IsFormat(f) && byte < 0x80
    ensures DecodeFloat8(byte + 0x80, f) ==
            if f.fnuz && byte == 0 then NaN
            else match DecodeFloat8(byte, f)
              case NaN => NaN
              case Infinite(negative) => Infinite(!negative)
              case Finite(negative, magnitude) => Finite(!negative, magnitude)
  {
    SignIsMasked(byte, f);
    SignIsMasked(byte + 0x80, f);
  }

  lemma FiniteMagnitude(byte: Byte, f: Format)
    requires IsFormat(f) && DecodeFloat8(byte, f).Finite?
    ensures DecodeFloat8(byte, f).magnitude == Magnitude(Code(byte), f.expBits, f.mantBits, f.bias)
    ensures DecodeFloat8(byte, f).magnitude >= 0.0
    ensures DecodeFloat8(byte, f).magnitude == 0.0 <==> Code(byte) == 0
  {
    SignIsMasked(byte, f);
    ZeroCode(f.expBits, f.mantBits, f.bias);
    if Code(byte) > 0 {
      StrictlyIncreasing(0, Code(byte), f.expBits, f.mantBits, f.bias);
    }
  }

  lemma MagnitudeIsInjective(c: nat, d: nat, expBits: nat, mantBits: nat, bias: int)
    requires expBits >= 1 && c < TwoTo(expBits + mantBits) && d < TwoTo(expBits + mantBits)
    ensures Magnitude(c, expBits, mantBits, bias) == Magnitude(d, expBits, mantBits, bias) <==> c == d
  {
    if c < d {
      StrictlyIncreasing(c, d, expBits, mantBits, bias);
    } else if d < c {
      StrictlyIncreasing(d, c, expBits, mantBits, bias);
    }
  }

  lemma DecodedSign(byte: Byte, f: Format)
    requires DecodeFloat8(byte, f).Finite?
    ensures DecodeFloat8(byte, f).negative <==> byte >= 0x80
  {
  }

  /** Two finite bytes decode to the same value exactly when they are the same, or the two signed zeros. */
  lemma FiniteCodesAreInjective(a: Byte, b: Byte, f: Format)
    requires IsFormat(f) && DecodeFloat8(a, f).Finite? && DecodeFloat8(b, f).Finite?
    ensures Value(DecodeFloat8(a, f)) == Value(DecodeFloat8(b, f)) <==> a == b || (Code(a) == 0 && Code(b) == 0)
  {
    FiniteMagnitude(a, f);
    FiniteMagnitude(b, f);
    DecodedSign(a, f);
    DecodedSign(b, f);
    CodeFits(a, f);
    CodeFits(b, f);
    MagnitudeIsInjective(Code(a), Code(b), f.expBits, f.mantBits, f.bias);
    SameValue(DecodeFloat8(a, f), DecodeFloat8(b, f));
    SignAndCode(a, b);
  }

  lemma SameValue(x: Number, y: Number)
    requires x.Finite? && y.Finite? && x.magnitude >= 0.0 && y.magnitude >= 0.0
    ensures Value(x) == Value(y) <==> x.magnitude == y.magnitude && (x.negative == y.negative || x.magnitude == 0.0)
  {
  }

  lemma SignAndCode(a: Byte, b: Byte)
    ensures a == b <==> Code(a) == Code(b) && (a >= 0x80 <==> b >= 0x80)
  {
  }

  lemma CodeFits(byte: Byte, f: Format)
    requires IsFormat(f)
    ensures Code(byte) < TwoTo(f.expBits + f.mantBits)
  {
    Powers();
  }

  // ---------------------------------------------------------------- the range of each format

  /** The largest code that is not taken by an infinity or a NaN. */
  function LargestCode(f: Format): int {
    if f.fnuz then 0x7F else if f.hasInf then 0x7F - TwoTo(f.mantBits) else 0x7E
  }

  /** The special values are exactly the codes above the largest finite one, and 0x80 when the format is fnuz. */
  lemma FiniteExactly(byte: Byte, f: Format)
    requires IsFormat(f)
    ensures DecodeFloat8(byte, f).Finite? <==> Code(byte) <= LargestCode(f) && !(f.fnuz && byte == 0x80)
  {
    SignIsMasked(byte, f);
    TopExponent(Code(byte), f.expBits, f.mantBits);
    Powers();
  }

  /** The codes whose exponent field is all ones are the top 2^mantBits of them. */
  lemma TopExponent(code: nat, expBits: nat, mantBits: nat)
    requires code < TwoTo(expBits + mantBits)
    ensures ExpField(code, expBits, mantBits) == TwoTo(expBits) - 1 <==>
            code >= TwoTo(expBits + mantBits) - TwoTo(mantBits)
    ensures ExpField(code, expBits, mantBits) == TwoTo(expBits) - 1 ==>
            MantField(code, mantBits) == code - (TwoTo(expBits + mantBits) - TwoTo(mantBits))
  {
    TwoToSum(expBits, mantBits);
    NoWrap(code, TwoTo(mantBits), TwoTo(expBits));
    TopQuotient(code, TwoTo(mantBits), TwoTo(expBits));
  }

  lemma TopQuotient(code: nat, scale: nat, range: nat)
    requires scale >= 1 && range >= 1 && code < range * scale
    ensures code / scale == range - 1 <==> code >= range * scale - scale
    ensures code / scale == range - 1 ==> code % scale == code - (range * scale - scale)
  {
    assert (range - 1) * scale == range * scale - scale;
    if code >= range * scale - scale {
      Division(code, scale, range - 1, code - (range - 1) * scale);
    }
  }

  /** No finite byte decodes beyond the largest code, and only that code attains its magnitude. */
  lemma LargestFinite(byte: Byte, f: Format)
    requires IsFormat(f) && DecodeFloat8(byte, f).Finite?
    ensures 0 <= LargestCode(f)
    ensures var top := Magnitude(LargestCode(f), f.expBits, f.mantBits, f.bias);
            DecodeFloat8(byte, f).magnitude <= top &&
            (DecodeFloat8(byte, f).magnitude == top <==> Code(byte) == LargestCode(f))
  {
    FiniteExactly(byte, f);
    FiniteMagnitude(byte, f);
    Powers();
    if Code(byte) < LargestCode(f) {
      StrictlyIncreasing(Code(byte), LargestCode(f), f.expBits, f.mantBits, f.bias);
    }
  }

  /** What every byte of every format decodes to, by its sign and the code below it. */
  lemma DecodedExactly(byte: Byte, f: Format)
    requires IsFormat(f)
    ensures DecodeFloat8(byte, f) ==
            if f.fnuz && byte == 0x80 then NaN
            else if Code(byte) <= LargestCode(f) then
              Finite(byte >= 0x80, Magnitude(Code(byte), f.expBits, f.mantBits, f.bias))
            else if f.hasInf && Code(byte) == LargestCode(f) + 1 then Infinite(byte >= 0x80)
            else NaN
  {
    SignIsMasked(byte, f);
    TopExponent(Code(byte), f.expBits, f.mantBits);
    Powers();
  }

  /** Which bytes are infinite and which are not a number. */
  lemma SpecialExactly(byte: Byte, f: Format)
    requires IsFormat(f)
    ensures DecodeFloat8(byte, f).Infinite? <==> f.hasInf && !f.fnuz && Code(byte) == LargestCode(f) + 1
    ensures DecodeFloat8(byte, f).Infinite? ==> DecodeFloat8(byte, f) == Infinite(byte >= 0x80)
    ensures DecodeFloat8(byte, f).NaN? <==>
            if f.fnuz then byte == 0x80 else Code(byte) > (if f.hasInf then LargestCode(f) + 1 else LargestCode(f))
  {
    DecodedExactly(byte, f);
  }

  /** The special bytes of the format with five exponent bits and infinities. */
  lemma SpecialE5M2(byte: Byte)
    ensures DecodeFloat8(byte, E5M2).Infinite? <==> byte == 0x7C || byte == 0xFC
    ensures byte == 0x7C ==> DecodeFloat8(byte, E5M2) == Infinite(false)
    ensures byte == 0xFC ==> DecodeFloat8(byte, E5M2) == Infinite(true)
    ensures DecodeFloat8(byte, E5M2).NaN? <==> 0x7D <= byte <= 0x7F || byte >= 0xFD
  {
    Powers();
    SpecialExactly(byte, E5M2);
  }

  /** The other formats have no infinities. */
  lemma SpecialOthers(byte: Byte)
    ensures !DecodeFloat8(byte, E4M3FN).Infinite?
    ensures !DecodeFloat8(byte, E5M2FNUZ).Infinite? && !DecodeFloat8(byte, E4M3FNUZ).Infinite?
    ensures DecodeFloat8(byte, E4M3FN).NaN? <==> byte == 0x7F || byte == 0xFF
    ensures DecodeFloat8(byte, E5M2FNUZ).NaN? <==> byte == 0x80
    ensures DecodeFloat8(byte, E4M3FNUZ).NaN? <==> byte == 0x80
  {
    SpecialExactly(byte, E4M3FN);
    SpecialExactly(byte, E5M2FNUZ);
    SpecialExactly(byte, E4M3FNUZ);
  }

  function Largest(f: Format): real
    requires 0 <= LargestCode(f)
  {
    Magnitude(LargestCode(f), f.expBits, f.mantBits, f.bias)
  }

  function Smallest(f: Format): real {
    Magnitude(1, f.expBits, f.mantBits, f.bias)
  }

  /** The ranges the standards give: the largest finite value and the smallest positive one. */
  lemma StandardRanges()
    ensures 0 <= LargestCode(E5M2)
    ensures Largest(E5M2) == 57344.0 && Smallest(E5M2) * 65536.0 == 1.0
    ensures Largest(E5M2FNUZ) == 57344.0 && Smallest(E5M2FNUZ) * 131072.0 == 1.0
    ensures Largest(E4M3FN) == 448.0 && Smallest(E4M3FN) * 512.0 == 1.0
    ensures Largest(E4M3FNUZ) == 240.0 && Smallest(E4M3FNUZ) * 1024.0 == 1.0
  {
    Powers();
    LargePowers();
    LargestIs(123, 30, 3, 5, 2, 15, 57344);
    LargestIs(127, 31, 3, 5, 2, 16, 57344);
    LargestIs(126, 15, 6, 4, 3, 7, 448);
    LargestIs(127, 15, 7, 4, 3, 8, 240);
    SmallestIs(5, 2, 15, 16);
    SmallestIs(5, 2, 16, 17);
    SmallestIs(4, 3, 7, 9);
    SmallestIs(4, 3, 8, 10);
  }

  lemma LargePowers()
    ensures TwoTo(9) == 512 && TwoTo(10) == 1024 && TwoTo(13) == 8192 && TwoTo(16) == 65536 && TwoTo(17) == 131072
  {
    Powers();
    TwoToSum(5, 4);
    TwoToSum(9, 1);
    TwoToSum(9, 4);
    TwoToSum(13, 3);
    TwoToSum(16, 1);
  }

  lemma LargestIs(code: nat, exp: nat, mant: nat, expBits: nat, mantBits: nat, bias: int, value: nat)
    requires 1 <= exp < TwoTo(expBits) && mant < TwoTo(mantBits) && code == exp * TwoTo(mantBits) + mant
    requires exp - bias - mantBits >= 0
    requires value == (TwoTo(mantBits) + mant) * TwoTo(exp - bias - mantBits)
    ensures Magnitude(code, expBits, mantBits, bias) == value as real
  {
    Division(code, TwoTo(mantBits), exp, mant);
    Division(exp, TwoTo(expBits), 0, exp);
    MagnitudeInUnits(exp, mant, mantBits, bias);
    WholeLdexp(TwoTo(mantBits) + mant, exp - bias - mantBits);
  }

  lemma WholeLdexp(x: nat, e: nat)
    ensures Ldexp(x as real, e) == (x * TwoTo(e)) as real
  {
    Pow2Scaled(e, e);
    RealProduct(x, TwoTo(e));
  }

  lemma RealProduct(x: nat, y: nat)
    ensures x as real * y as real == (x * y) as real
  {
  }

  /** The smallest positive value is 2^(1 - bias - mantBits), the unit of the subnormals. */
  lemma SmallestIs(expBits: nat, mantBits: nat, bias: int, n: nat)
    requires mantBits >= 1 && n == bias + mantBits - 1
    ensures Magnitude(1, expBits, mantBits, bias) * TwoTo(n) as real == 1.0
  {
    Division(1, TwoTo(mantBits), 0, 1);
    Division(0, TwoTo(expBits), 0, 0);
    MagnitudeInUnits(0, 1, mantBits, bias);
    Pow2Scaled(0, n);
  }

  // ---------------------------------------------------------------- E2M1 and E8M0

  const E2M1_MAGNITUDE: seq<real> := [0.0, 0.5, 1.0, 1.5, 2.0, 3.0, 4.0, 6.0]

  /** The table of the 4-bit format is the formula with two exponent bits, one mantissa bit and bias one. */
  lemma E2M1TableIsTheFormula(code: nat)
    requires code < 8
    ensures E2M1_MAGNITUDE[code] == Magnitude(code, 2, 1, 1)
  {
    Powers();
    MagnitudeInUnits(code / 2, code % 2, 1, 1);
    assert Pow2(1) == 2.0 && Pow2(-1) == 0.5;
  }

  function DecodeE8M0(byte: Byte): Number {
    if byte == 0xFF then NaN else Finite(false, Pow2(byte - 127))
  }

  /** Each E8M0 code but NaN is twice the one before it, so the codes are ordered as their values. */
  lemma {:induction false} E8M0Doubles(c: Byte, d: Byte)
    requires c < d < 0xFF
    ensures DecodeE8M0(c + 1).magnitude == 2.0 * DecodeE8M0(c).magnitude
    ensures DecodeE8M0(d).magnitude >= 2.0 * DecodeE8M0(c).magnitude > 0.0
    decreases d - c
  {
    Pow2Step(c - 127);
    if c + 1 < d {
      E8M0Doubles(c + 1, d);
    }
  }

  /** The scale of E8M0: code 127 is one, and 0xFF alone is not a number. */
  lemma E8M0Scale(byte: Byte)
    ensures DecodeE8M0(127) == Finite(false, 1.0)
    ensures DecodeE8M0(byte).NaN? <==> byte == 0xFF
    ensures byte != 0xFF ==> DecodeE8M0(byte).Finite? && !DecodeE8M0(byte).negative
  {
  }
}
