/** The 26-byte frame header: byte order on a little-endian machine. */
module HeaderCodec {

  import opened Basics

  const TWO_16 := 0x1_0000
  const TWO_32 := 0x1_0000_0000
  const TWO_63 := 0x8000_0000_0000_0000
  const TWO_64 := 0x1_0000_0000_0000_0000
  const HEADER_SIZE := 26

  // ---------------------------------------------------------------- integers in memory

  function Pow256(n: nat): (p: int)
    ensures p >= 1
  {
    if n == 0 then 1 else 256 * Pow256(n - 1)
  }

  /** The `n` low bytes of `x` as a little-endian machine stores them. */
  function ToLe(x: nat, n: nat): (bytes: seq<Byte>)
    ensures |bytes| == n
  {
    if n == 0 then [] else [x % 256] + ToLe(x / 256, n - 1)
  }

  function FromLe(bytes: seq<Byte>): nat
  {
    if bytes == [] then 0 else bytes[0] + 256 * FromLe(bytes[1..])
  }

  lemma {:induction false} FromLeBound(bytes: seq<Byte>)
    ensures FromLe(bytes) < Pow256(|bytes|)
  {
    if bytes != [] {
      FromLeBound(bytes[1..]);
    }
  }

  lemma {:induction false} FromToLe(x: nat, n: nat)
    requires x < Pow256(n)
    ensures FromLe(ToLe(x, n)) == x
  {
    if n > 0 {
      FromToLe(x / 256, n - 1);
      assert ToLe(x, n)[1..] == ToLe(x / 256, n - 1);
    }
  }

  lemma {:induction false} ToFromLe(bytes: seq<Byte>)
    ensures ToLe(FromLe(bytes), |bytes|) == bytes
  {
    if bytes != [] {
      ToFromLe(bytes[1..]);
      LowByte(bytes[0], FromLe(bytes[1..]));
      FirstByteBack(bytes, FromLe(bytes), FromLe(bytes[1..]));
    }
  }

  lemma FirstByteBack(bytes: seq<Byte>, x: nat, rest: nat)
    requires bytes != [] && x % 256 == bytes[0] && x / 256 == rest && ToLe(rest, |bytes| - 1) == bytes[1..]
    ensures ToLe(x, |bytes|) == bytes
  {
    assert bytes == [bytes[0]] + bytes[1..];
  }

  lemma {:induction false} ToLeConcat(x: nat, y: nat, m: nat, n: nat)
    requires x < Pow256(m)
    ensures x + Pow256(m) * y >= 0
    ensures ToLe(x + Pow256(m) * y, m + n) == ToLe(x, m) + ToLe(y, n)
  {
    if m > 0 {
      ToLeConcat(x / 256, y, m - 1, n);
      ShiftOut(x, Pow256(m - 1), y);
    } else {
      assert Pow256(0) * y == y;
    }
  }

  lemma ShiftOut(x: nat, scale: nat, y: nat)
    ensures x + 256 * scale * y >= 0
    ensures (x + 256 * scale * y) / 256 == x / 256 + scale * y && (x + 256 * scale * y) % 256 == x % 256
  {
    LowByte(x, scale * y);
    assert 256 * scale * y == 256 * (scale * y);
  }

  lemma LowByte(x: nat, high: nat)
    ensures (x + 256 * high) / 256 == x / 256 + high && (x + 256 * high) % 256 == x % 256
  {
  }

  function Reverse(bytes: seq<Byte>): (reversed: seq<Byte>)
    ensures |reversed| == |bytes|
  {
    if bytes == [] then [] else Reverse(bytes[1..]) + [bytes[0]]
  }

  lemma {:induction false} ReverseConcat(a: seq<Byte>, b: seq<Byte>)
    ensures Reverse(a + b) == Reverse(b) + Reverse(a)
  {
    if a == [] {
      assert a + b == b;
    } else {
      assert (a + b)[1..] == a[1..] + b;
      ReverseConcat(a[1..], b);
    }
  }

  lemma {:induction false} ReverseTwice(bytes: seq<Byte>)
    ensures Reverse(Reverse(bytes)) == bytes
  {
    if bytes != [] {
      ReverseConcat(Reverse(bytes[1..]), [bytes[0]]);
      ReverseTwice(bytes[1..]);
      assert Reverse([bytes[0]]) == [bytes[0]];
    }
  }

  // ---------------------------------------------------------------- byte swapping

  /** htonl and ntohl: the argument is cut to 32 bits. */
  function Htonl(x: int): nat {
    FromLe(Reverse(ToLe(x % TWO_32, 4)))
  }

  /** htons and ntohs on a signed 16-bit value. */
  function Htons(x: int): int {
    AsInt16(FromLe(Reverse(ToLe(x % TWO_16, 2))))
  }

  /** The macro HTONLL, and NTOHLL, which is the same: two swapped halves, the low one moved up, added. */
  function Htonll(x: int): nat {
    Htonl(x) * TWO_32 + Htonl(x / TWO_32)
  }

  function AsInt16(x: nat): int { if x >= 0x8000 then x - TWO_16 else x }

  function AsInt64(x: nat): int { if x >= TWO_63 then x - TWO_64 else x }

  predicate IsInt16(x: int) { -0x8000 <= x < 0x8000 }

  predicate IsInt64(x: int) { -TWO_63 <= x < TWO_63 }

  lemma Powers()
    ensures Pow256(2) == TWO_16 && Pow256(4) == TWO_32 && Pow256(8) == TWO_64
  {
    assert Pow256(3) == 256 * Pow256(2);
    assert Pow256(5) == 256 * Pow256(4);
    assert Pow256(6) == 256 * Pow256(5);
    assert Pow256(7) == 256 * Pow256(6);
  }

  /** Swapping the halves of a 2n-byte integer and the bytes of each half reverses all its bytes. */
  lemma SwappedHalves(low: nat, high: nat, n: nat)
    requires low < Pow256(n) && high < Pow256(n)
    ensures var swappedHigh, swappedLow := FromLe(Reverse(ToLe(high, n))), FromLe(Reverse(ToLe(low, n)));
            && swappedHigh + Pow256(n) * swappedLow >= 0 && low + Pow256(n) * high >= 0
            && ToLe(swappedHigh + Pow256(n) * swappedLow, n + n) == Reverse(ToLe(low + Pow256(n) * high, n + n))
  {
    var reversedHigh, reversedLow := Reverse(ToLe(high, n)), Reverse(ToLe(low, n));
    FromLeBound(reversedHigh);
    ToFromLe(reversedHigh);
    ToFromLe(reversedLow);
    ToLeConcat(FromLe(reversedHigh), FromLe(reversedLow), n, n);
    ToLeConcat(low, high, n, n);
    ReverseConcat(ToLe(low, n), ToLe(high, n));
  }

  lemma Halves(x: int)
    ensures x % TWO_64 == x % TWO_32 + TWO_32 * ((x / TWO_32) % TWO_32)
  {
  }

  /** Adding the halves never carries, and the sum stores the bytes of the argument in reverse. */
  lemma HtonllReversesBytes(x: int)
    ensures Htonll(x) < TWO_64
    ensures ToLe(Htonll(x), 8) == Reverse(ToLe(x % TWO_64, 8))
  {
    Powers();
    HtonlBytes(x);
    HtonlBytes(x / TWO_32);
    Halves(x);
    SwappedHalves(x % TWO_32, (x / TWO_32) % TWO_32, 4);
  }

  lemma HtonlBytes(x: int)
    ensures Htonl(x) < TWO_32
    ensures ToLe(Htonl(x), 4) == Reverse(ToLe(x % TWO_32, 4))
  {
    Powers();
    FromLeBound(Reverse(ToLe(x % TWO_32, 4)));
    ToFromLe(Reverse(ToLe(x % TWO_32, 4)));
  }

  lemma ToLeInjective(a: nat, b: nat, n: nat)
    requires a < Pow256(n) && b < Pow256(n) && ToLe(a, n) == ToLe(b, n)
    ensures a == b
  {
    FromToLe(a, n);
    FromToLe(b, n);
  }

  lemma HtonllTwice(x: int, field: int)
    requires field % TWO_64 == Htonll(x)
    ensures Htonll(field) == x % TWO_64
  {
    Powers();
    HtonllReversesBytes(x);
    HtonllReversesBytes(field);
    ReverseTwice(ToLe(x % TWO_64, 8));
    ToLeInjective(Htonll(field), x % TWO_64, 8);
  }

  lemma AsInt64Keeps(u: nat)
    requires u < TWO_64
    ensures IsInt64(AsInt64(u)) && AsInt64(u) % TWO_64 == u
  {
  }

  /** What crosses the wire and comes back through the int64 field is unchanged, negative values included. */
  lemma HtonllIsInvolution(x: int)
    requires IsInt64(x)
    ensures IsInt64(AsInt64(Htonll(x)))
    ensures AsInt64(Htonll(AsInt64(Htonll(x)))) == x
  {
    var u := Htonll(x);
    HtonllBound(x);
    AsInt64Keeps(u);
    var field := AsInt64(u);
    HtonllTwice(x, field);
    assert Htonll(field) == x % TWO_64;
    SignedBack(x);
  }

  lemma HtonllBound(x: int)
    ensures Htonll(x) < TWO_64
  {
    HtonllReversesBytes(x);
  }

  lemma SignedBack(x: int)
    requires IsInt64(x)
    ensures AsInt64(x % TWO_64) == x
  {
  }

  lemma HtonsInRange(x: int)
    ensures IsInt16(Htons(x))
  {
    Powers();
    FromLeBound(Reverse(ToLe(x % TWO_16, 2)));
  }

  lemma HtonsIsInvolution(x: int)
    requires IsInt16(x)
    ensures IsInt16(Htons(x)) && Htons(Htons(x)) == x
  {
    Powers();
    var bytes := ToLe(x % TWO_16, 2);
    var swapped := FromLe(Reverse(bytes));
    FromLeBound(Reverse(bytes));
    assert Htons(x) % TWO_16 == swapped;
    ToFromLe(Reverse(bytes));
    ReverseTwice(bytes);
    FromToLe(x % TWO_16, 2);
  }

  lemma HtonsReversesBytes(x: int)
    ensures ToLe(Htons(x) % TWO_16, 2) == Reverse(ToLe(x % TWO_16, 2))
  {
    Powers();
    var reversed := Reverse(ToLe(x % TWO_16, 2));
    FromLeBound(reversed);
    assert Htons(x) % TWO_16 == FromLe(reversed);
    ToFromLe(reversed);
  }

  // ---------------------------------------------------------------- the packed header

  datatype Header = Header(kind: int, length: int, jsonLength: int, postLength: int)

  predicate InRange(h: Header) {
    IsInt16(h.kind) && IsInt64(h.length) && IsInt64(h.jsonLength) && IsInt64(h.postLength)
  }

  /** The packed structure as it lies in memory, field by field, unpadded. */
  function Packed(h: Header): (bytes: seq<Byte>)
    ensures |bytes| == HEADER_SIZE
  {
    ToLe(h.kind % TWO_16, 2) + ToLe(h.length % TWO_64, 8) + ToLe(h.jsonLength % TWO_64, 8) + ToLe(h.postLength % TWO_64, 8)
  }

  function Unpacked(bytes: seq<Byte>): Header
    requires |bytes| == HEADER_SIZE
  {
    Header(AsInt16(FromLe(bytes[..2])), AsInt64(FromLe(bytes[2..10])),
           AsInt64(FromLe(bytes[10..18])), AsInt64(FromLe(bytes[18..])))
  }

  /** Every field swapped in place. */
  function Swapped(h: Header): Header {
    Header(Htons(h.kind), AsInt64(Htonll(h.length)), AsInt64(Htonll(h.jsonLength)), AsInt64(Htonll(h.postLength)))
  }

  /** The header as the reader understands the bytes it received. */
  function Received(bytes: seq<Byte>): Header
    requires |bytes| == HEADER_SIZE
  {
    Swapped(Unpacked(bytes))
  }

  lemma FieldOf64(x: int)
    requires IsInt64(x)
    ensures AsInt64(FromLe(ToLe(x % TWO_64, 8))) == x
  {
    Powers();
    FromToLe(x % TWO_64, 8);
  }

  lemma FieldOf16(x: int)
    requires IsInt16(x)
    ensures AsInt16(FromLe(ToLe(x % TWO_16, 2))) == x
  {
    Powers();
    FromToLe(x % TWO_16, 2);
  }

  lemma Fields(a: seq<Byte>, b: seq<Byte>, c: seq<Byte>, d: seq<Byte>)
    requires |a| == 2 && |b| == |c| == |d| == 8
    ensures var all := a + b + c + d;
            all[..2] == a && all[2..10] == b && all[10..18] == c && all[18..] == d
  {
  }

  lemma UnpackedPacked(h: Header)
    requires InRange(h)
    ensures Unpacked(Packed(h)) == h
  {
    Fields(ToLe(h.kind % TWO_16, 2), ToLe(h.length % TWO_64, 8),
           ToLe(h.jsonLength % TWO_64, 8), ToLe(h.postLength % TWO_64, 8));
    FieldOf16(h.kind);
    FieldOf64(h.length);
    FieldOf64(h.jsonLength);
    FieldOf64(h.postLength);
  }

  lemma SwappedInRange(h: Header)
    requires InRange(h)
    ensures InRange(Swapped(h)) && Swapped(Swapped(h)) == h
  {
    HtonsIsInvolution(h.kind);
    HtonllIsInvolution(h.length);
    HtonllIsInvolution(h.jsonLength);
    HtonllIsInvolution(h.postLength);
  }

  /** Any header a sender swaps, packs and sends is received as it was. */
  lemma HeaderRoundTrip(h: Header)
    requires InRange(h)
    ensures Received(Packed(Swapped(h))) == h
  {
    SwappedInRange(h);
    UnpackedPacked(Swapped(h));
  }

  /** The `n` low bytes of `x`, the most significant first. */
  function BigEndian(x: int, n: nat): seq<Byte> {
    Reverse(ToLe(x % Pow256(n), n))
  }

  /** What is on the wire: the four fields in the order of the structure, each the most significant byte first. */
  lemma WireIsBigEndian(h: Header)
    ensures Packed(Swapped(h)) ==
            BigEndian(h.kind, 2) + BigEndian(h.length, 8) + BigEndian(h.jsonLength, 8) + BigEndian(h.postLength, 8)
  {
    Powers();
    HtonsReversesBytes(h.kind);
    SwappedField(h.length);
    SwappedField(h.jsonLength);
    SwappedField(h.postLength);
  }

  lemma SwappedField(x: int)
    ensures ToLe(AsInt64(Htonll(x)) % TWO_64, 8) == BigEndian(x, 8)
  {
    Powers();
    HtonllReversesBytes(x);
    AsInt64Keeps(Htonll(x));
  }

  /** The header the server builds for a response or an error of `size` body bytes: `length` copies the swapped field. */
  function ResponseHeader(kind: int, size: nat): Header {
    var jsonLength := AsInt64(Htonll(size));
    Header(Htons(kind), jsonLength, jsonLength, AsInt64(Htonll(0)))
  }

  /** Every header the server builds satisfies the length equation that the server itself demands of a request. */
  lemma ResponseIsWellFramed(kind: int, size: nat)
    requires IsInt16(kind) && size < TWO_63
    ensures var h := Received(Packed(ResponseHeader(kind, size)));
            h == Header(kind, size, size, 0) && h.length == h.jsonLength + h.postLength
  {
    HeaderRoundTrip(Header(kind, size, size, 0));
  }
}
