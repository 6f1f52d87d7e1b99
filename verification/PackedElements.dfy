/** The elements of an output tensor whose storage is packed or decoded by hand, in the order they are stored. */
module PackedElements {
  import opened Basics
  import Bits
  import opened ReducedPrecision

  // ---------------------------------------------------------------- unpacking

  /** The i-th 4-bit value: the low half of a byte holds the even element. */
  function UnpackNibble(data: seq<Byte>, i: nat): (n: nat)
    requires i / 2 < |data|
    ensures n < 16
  {
    var byte := data[i / 2];
    if i % 2 == 0 then byte % 16 else byte / 16
  }

  /** The i-th 2-bit value: four fields a byte, the lowest first; a shift by 2k divides by 4^k. */
  function Unpack2Bit(data: seq<Byte>, i: nat): (n: nat)
    requires i / 4 < |data|
    ensures n < 4
  {
    var byte := data[i / 4];
    (match i % 4
     case 0 => byte
     case 1 => byte / 4
     case 2 => byte / 16
     case _ => byte / 64) % 4
  }

  /** The extraction of the source, with its mask and shift, from the byte at half the index. */
  lemma NibbleBits(data: seq<Byte>, i: nat, b: bv8)
    requires i / 2 < |data| && data[i / 2] == b as int
    ensures UnpackNibble(data, i) == (if i % 2 == 0 then b & 0x0F else b >> 4) as int
  {
    Bits.Mask4(b);
    Bits.Shift4(b);
  }

  lemma CrumbBits(data: seq<Byte>, i: nat, b: bv8)
    requires i / 4 < |data| && data[i / 4] == b as int
    ensures Unpack2Bit(data, i) ==
            ((match i % 4 case 0 => b case 1 => b >> 2 case 2 => b >> 4 case _ => b >> 6) & 0x03) as int
  {
    Bits.Mask2(b);
    Bits.Shift2(b);
    Bits.Mask2(b >> 2);
    Bits.Shift4(b);
    Bits.Mask2(b >> 4);
    Bits.Shift6(b);
    Bits.Mask2(b >> 6);
  }

  predicate Below(values: seq<nat>, bound: nat) {
    forall k :: 0 <= k < |values| ==> values[k] < bound
  }

  /** Two 4-bit values a byte; an odd last one leaves the high half of its byte zero. */
  function PackNibbles(values: seq<nat>): (data: seq<Byte>)
    requires Below(values, 16)
    ensures |data| == (|values| + 1) / 2
  {
    if |values| == 0 then []
    else if |values| == 1 then [values[0]]
    else [values[0] + 16 * values[1]] + PackNibbles(values[2..])
  }

  /** The k-th value, or zero past the end. */
  function ValueOrZero(values: seq<nat>, k: nat): nat {
    if k < |values| then values[k] else 0
  }

  function Pack2Bits(values: seq<nat>): (data: seq<Byte>)
    requires Below(values, 4)
    ensures |data| == (|values| + 3) / 4
    decreases |values|
  {
    if |values| == 0 then []
    else
      var byte := values[0] + 4 * ValueOrZero(values, 1) + 16 * ValueOrZero(values, 2) + 64 * ValueOrZero(values, 3);
      [byte] + Pack2Bits(if |values| <= 4 then [] else values[4..])
  }

  /** Packing and then extracting gives each 4-bit value back. */
  lemma {:induction false} NibblesRoundTrip(values: seq<nat>, i: nat)
    requires Below(values, 16) && i < |values|
    ensures i / 2 < |PackNibbles(values)| && UnpackNibble(PackNibbles(values), i) == values[i]
    decreases i
  {
    if i >= 2 {
      NibblesRoundTrip(values[2..], i - 2);
    }
  }

  /** Packing and then extracting gives each 2-bit value back. */
  lemma {:induction false} CrumbsRoundTrip(values: seq<nat>, i: nat)
    requires Below(values, 4) && i < |values|
    ensures i / 4 < |Pack2Bits(values)| && Unpack2Bit(Pack2Bits(values), i) == values[i]
    decreases i
  {
    if i >= 4 {
      CrumbsRoundTrip(values[4..], i - 4);
      LaterByte(Pack2Bits(values)[0], Pack2Bits(values[4..]), i);
    } else {
      FirstByte(values, i);
    }
  }

  lemma LaterByte(first: Byte, rest: seq<Byte>, i: nat)
    requires i >= 4 && (i - 4) / 4 < |rest|
    ensures i / 4 < 1 + |rest| && Unpack2Bit([first] + rest, i) == Unpack2Bit(rest, i - 4)
  {
  }

  lemma FirstByte(values: seq<nat>, i: nat)
    requires Below(values, 4) && i < |values| && i < 4
    ensures |Pack2Bits(values)| >= 1 && Unpack2Bit(Pack2Bits(values), i) == values[i]
  {
    FourFields(values[0], ValueOrZero(values, 1), ValueOrZero(values, 2), ValueOrZero(values, 3));
  }

  lemma FourFields(a: nat, b: nat, c: nat, d: nat)
    requires a < 4 && b < 4 && c < 4 && d < 4
    ensures var byte := a + 4 * b + 16 * c + 64 * d;
            byte % 4 == a && (byte / 4) % 4 == b && (byte / 16) % 4 == c && (byte / 64) % 4 == d
  {
  }

  /** Extracting every field of a buffer and packing again gives the buffer back. */
  lemma {:induction false} PackingUndoesNibbles(data: seq<Byte>)
    ensures var values := seq(2 * |data|, i requires 0 <= i < 2 * |data| => UnpackNibble(data, i));
            Below(values, 16) && PackNibbles(values) == data
  {
    var values := seq(2 * |data|, i requires 0 <= i < 2 * |data| => UnpackNibble(data, i));
    if data != [] {
      PackingUndoesNibbles(data[1..]);
      assert values[2..] == seq(2 * |data[1..]|, i requires 0 <= i < 2 * |data[1..]| => UnpackNibble(data[1..], i));
      assert values[0] + 16 * values[1] == data[0];
    }
  }

  lemma {:induction false} PackingUndoes2Bits(data: seq<Byte>)
    ensures var values := seq(4 * |data|, i requires 0 <= i < 4 * |data| => Unpack2Bit(data, i));
            Below(values, 4) && Pack2Bits(values) == data
  {
    var values := seq(4 * |data|, i requires 0 <= i < 4 * |data| => Unpack2Bit(data, i));
    if data != [] {
      PackingUndoes2Bits(data[1..]);
      var rest := seq(4 * |data[1..]|, i requires 0 <= i < 4 * |data[1..]| => Unpack2Bit(data[1..], i));
      assert (if |values| <= 4 then [] else values[4..]) == rest;
      FieldsOfFirst(data);
    }
  }

  lemma FieldsOfFirst(data: seq<Byte>)
    requires data != []
    ensures data[0] == Unpack2Bit(data, 0) + 4 * Unpack2Bit(data, 1) + 16 * Unpack2Bit(data, 2) + 64 * Unpack2Bit(data, 3)
  {
    FourDigits(data[0]);
  }

  lemma FourDigits(byte: Byte)
    ensures byte == byte % 4 + 4 * (byte / 4 % 4) + 16 * (byte / 16 % 4) + 64 * (byte / 64 % 4)
  {
  }

  // ---------------------------------------------------------------- signs

  /** Two's complement of a field with 2 * half values. */
  function Signed(n: int, half: int): int {
    if n >= half then n - 2 * half else n
  }

  function TwosComplement(x: int, half: int): int {
    if x < 0 then x + 2 * half else x
  }

  /** The sign reading is a bijection from the fields onto -half .. half - 1. */
  lemma SignedIsTwosComplement(n: int, x: int, half: int)
    requires 0 <= n < 2 * half && -half <= x < half
    ensures -half <= Signed(n, half) < half && 0 <= TwosComplement(x, half) < 2 * half
    ensures Signed(n, half) == x <==> n == TwosComplement(x, half)
  {
  }

  /** The 4-bit float: three bits of magnitude and a sign. */
  function DecodeE2M1(n: nat): Number
    requires n < 16
  {
    Finite(n / 8 == 1, E2M1_MAGNITUDE[n % 8])
  }

  /** The sixteen 4-bit floats are all different. */
  lemma E2M1IsInjective(a: nat, b: nat)
    requires a < 16 && b < 16
    ensures DecodeE2M1(a) == DecodeE2M1(b) <==> a == b
  {
  }

  // ---------------------------------------------------------------- whole tensors

  datatype Kind = UInt4 | Int4 | UInt2 | Int2 | Float4E2M1 | Float8(format: Format) | Float8E8M0

  datatype Element =
    | Whole(value: int)
    | Real(number: Number)
    | Truth(flag: bool)
    | Text(text: string)
    | Complex(re: Number, im: Number)

  /** What a tensor holds: bytes to decode, interleaved complex parts, or elements that are read as they are. */
  datatype Tensor =
    | Undefined
    | Bytes(kind: Kind, data: seq<Byte>)
    | Parts(numbers: seq<Number>)
    | Plain(elements: seq<Element>)

  /** How many bytes hold so many elements. */
  function Storage(kind: Kind, size: nat): nat {
    match kind
    case UInt4 | Int4 | Float4E2M1 => (size + 1) / 2
    case UInt2 | Int2 => (size + 3) / 4
    case Float8(_) | Float8E8M0 => size
  }

  /** The storage reaches as far as element i. */
  predicate Reaches(kind: Kind, data: seq<Byte>, i: nat) {
    |data| >= Storage(kind, i + 1)
  }

  lemma StorageCovers(kind: Kind, data: seq<Byte>, size: nat)
    requires |data| == Storage(kind, size)
    ensures forall i: nat :: i < size ==> Reaches(kind, data, i)
  {
    match kind
    case UInt4 | Int4 | Float4E2M1 =>
    case UInt2 | Int2 =>
    case Float8(_) | Float8E8M0 =>
  }

  /** The unsigned field of one element. */
  function FieldOf(kind: Kind, data: seq<Byte>, i: nat): nat
    requires Reaches(kind, data, i)
    ensures FieldOf(kind, data, i) < FieldBound(kind)
  {
    match kind
    case UInt4 | Int4 | Float4E2M1 => UnpackNibble(data, i)
    case UInt2 | Int2 => Unpack2Bit(data, i)
    case Float8(_) | Float8E8M0 => data[i]
  }

  function FieldBound(kind: Kind): nat {
    match kind
    case UInt4 | Int4 | Float4E2M1 => 16
    case UInt2 | Int2 => 4
    case Float8(_) | Float8E8M0 => 256
  }

  /** What a field stands for. */
  function Meaning(kind: Kind, field: nat): Element
    requires field < FieldBound(kind)
  {
    match kind
    case UInt4 | UInt2 => Whole(field)
    case Int4 => Whole(Signed(field, 8))
    case Int2 => Whole(Signed(field, 2))
    case Float4E2M1 => Real(DecodeE2M1(field))
    case Float8(format) => Real(DecodeFloat8(field, format))
    case Float8E8M0 => Real(DecodeE8M0(field))
  }

  /** The storage of a list of fields. */
  function Packed(kind: Kind, fields: seq<nat>): (data: seq<Byte>)
    requires Below(fields, FieldBound(kind))
    ensures |data| == Storage(kind, |fields|)
  {
    match kind
    case UInt4 | Int4 | Float4E2M1 => PackNibbles(fields)
    case UInt2 | Int2 => Pack2Bits(fields)
    case Float8(_) | Float8E8M0 => seq(|fields|, i requires 0 <= i < |fields| => fields[i])
  }

  lemma FieldsRoundTrip(kind: Kind, fields: seq<nat>, i: nat)
    requires Below(fields, FieldBound(kind)) && i < |fields|
    ensures Reaches(kind, Packed(kind, fields), i)
    ensures FieldOf(kind, Packed(kind, fields), i) == fields[i]
  {
    match kind
    case UInt4 | Int4 | Float4E2M1 => NibblesRoundTrip(fields, i);
    case UInt2 | Int2 => CrumbsRoundTrip(fields, i);
    case Float8(_) | Float8E8M0 =>
  }

  // ---------------------------------------------------------------- what the fields stand for

  /** The integers that a kind can store. */
  predicate CanStore(kind: Kind, x: int) {
    match kind
    case UInt4 => 0 <= x <= 15
    case Int4 => -8 <= x <= 7
    case UInt2 => 0 <= x <= 3
    case Int2 => -2 <= x <= 1
    case _ => false
  }

  /** The low bits of each integer. */
  function LowBits(kind: Kind, xs: seq<int>): (fields: seq<nat>)
    ensures |fields| == |xs| && Below(fields, FieldBound(kind))
    ensures forall i :: 0 <= i < |xs| ==> fields[i] == xs[i] % FieldBound(kind)
  {
    seq(|xs|, i requires 0 <= i < |xs| => LowField(kind, xs[i]))
  }

  function LowField(kind: Kind, x: int): (field: nat)
    ensures field == x % FieldBound(kind) && field < FieldBound(kind)
  {
    x % FieldBound(kind)
  }

  /** The low bits of an integer stand for the integer, negative ones included. */
  lemma LowBitsMean(kind: Kind, x: int)
    requires CanStore(kind, x)
    ensures Meaning(kind, x % FieldBound(kind)) == Whole(x)
  {
  }

  /** Integers that are stored in their low bits come back. */
  lemma IntegersComeBack(kind: Kind, xs: seq<int>, i: nat)
    requires i < |xs| && CanStore(kind, xs[i])
    ensures Reaches(kind, Packed(kind, LowBits(kind, xs)), i)
    ensures Meaning(kind, FieldOf(kind, Packed(kind, LowBits(kind, xs)), i)) == Whole(xs[i])
  {
    FieldsRoundTrip(kind, LowBits(kind, xs), i);
    LowBitsMean(kind, xs[i]);
  }

  /** What the fields of the floating-point kinds stand for. */
  lemma FloatsMean(field: nat, f: Format)
    requires field < 256
    ensures field < 16 ==> Meaning(Float4E2M1, field) == Real(Finite(field >= 8, Magnitude(field % 8, 2, 1, 1)))
    ensures Meaning(Float8E8M0, field) == Real(if field == 255 then NaN else Finite(false, Pow2(field - 127)))
    ensures IsFormat(f) ==>
              Meaning(Float8(f), field) ==
              Real(if f.fnuz && field == 0x80 then NaN
                   else if field % 0x80 <= LargestCode(f) then
                     Finite(field >= 0x80, Magnitude(field % 0x80, f.expBits, f.mantBits, f.bias))
                   else if f.hasInf && field % 0x80 == LargestCode(f) + 1 then Infinite(field >= 0x80)
                   else NaN)
  {
    E2M1TableIsTheFormula(field % 8);
    if IsFormat(f) { DecodedExactly(field, f); }
  }

  /** The storage has room for so many elements, and no more. */
  predicate HasSize(tensor: Tensor, size: nat) {
    match tensor
    case Undefined => true
    case Bytes(kind, data) => |data| == Storage(kind, size)
    case Parts(numbers) => |numbers| == 2 * size
    case Plain(elements) => |elements| == size
  }

  /** The elements of a tensor, in storage order; its reads never leave the storage. */
  method GetTensorData(tensor: Tensor, size: nat) returns (values: seq<Element>)
    requires HasSize(tensor, size)
    ensures match tensor
            case Undefined => values == []
            case Bytes(kind, data) => IsDecoded(kind, data, size, values)
            case Parts(numbers) =>
              |values| == size && forall i :: 0 <= i < size ==> values[i] == Complex(numbers[2 * i], numbers[2 * i + 1])
            case Plain(elements) => values == elements
  {
    values := [];
    match tensor {
      case Undefined =>
      case Bytes(kind, data) =>
        values := DecodeBytes(kind, data, size);
      case Parts(numbers) =>
        for i := 0 to size
          invariant |values| == i
          invariant forall k :: 0 <= k < i ==> values[k] == Complex(numbers[2 * k], numbers[2 * k + 1])
        {
          values := values + [Complex(numbers[2 * i], numbers[2 * i + 1])];
        }
      case Plain(elements) =>
        for i := 0 to size
          invariant values == elements[..i]
        {
          values := values + [elements[i]];
        }
    }
  }

  /**
   * Each value is the meaning of its field; of the packed one, if the storage was made by packing. Integers that were
   * stored in their low bits are read back, sign and all.
   */
  ghost predicate IsDecoded(kind: Kind, data: seq<Byte>, size: nat, values: seq<Element>) {
    && |values| == size
    && (forall i :: 0 <= i < size ==> Reaches(kind, data, i) && values[i] == Meaning(kind, FieldOf(kind, data, i)))
    && (forall fields :: Below(fields, FieldBound(kind)) && |fields| == size && Packed(kind, fields) == data ==>
          forall i :: 0 <= i < size ==> values[i] == Meaning(kind, fields[i]))
    && (forall xs: seq<int> ::
          (forall i :: 0 <= i < |xs| ==> CanStore(kind, xs[i])) && |xs| == size && Packed(kind, LowBits(kind, xs)) == data ==>
            forall i :: 0 <= i < size ==> values[i] == Whole(xs[i]))
  }

  /** The loops over packed and hand-decoded elements. */
  method DecodeBytes(kind: Kind, data: seq<Byte>, size: nat) returns (values: seq<Element>)
    requires |data| == Storage(kind, size)
    ensures IsDecoded(kind, data, size, values)
  {
    StorageCovers(kind, data, size);
    values := [];
    for i := 0 to size
      invariant |values| == i
      invariant forall k :: 0 <= k < i ==>
                  values[k] == Meaning(kind, FieldOf(kind, data, k))
    {
      match kind {
        case UInt4 =>
          values := values + [Whole(UnpackNibble(data, i))];
        case Int4 =>
          var n: int := UnpackNibble(data, i);
          values := values + [Whole(if n >= 8 then n - 16 else n)];
        case UInt2 =>
          values := values + [Whole(Unpack2Bit(data, i))];
        case Int2 =>
          var b: int := Unpack2Bit(data, i);
          values := values + [Whole(if b >= 2 then b - 4 else b)];
        case Float4E2M1 =>
          var n := UnpackNibble(data, i);
          var v := E2M1_MAGNITUDE[n % 8];
          values := values + [Real(Finite(n / 8 == 1, v))];
        case Float8(format) =>
          values := values + [Real(DecodeFloat8(data[i], format))];
        case Float8E8M0 =>
          values := values + [Real(DecodeE8M0(data[i]))];
      }
    }
    forall fields, i | Below(fields, FieldBound(kind)) && |fields| == size && Packed(kind, fields) == data && 0 <= i < size
      ensures values[i] == Meaning(kind, fields[i])
    {
      FieldsRoundTrip(kind, fields, i);
    }
    forall xs: seq<int>, i |
      (forall k :: 0 <= k < |xs| ==> CanStore(kind, xs[k])) && |xs| == size && Packed(kind, LowBits(kind, xs)) == data &&
      0 <= i < size
      ensures values[i] == Whole(xs[i])
    {
      IntegersComeBack(kind, xs, i);
    }
  }
}
