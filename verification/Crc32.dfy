/** The little-endian CRC-32 of Model/linux/crc32.h: the bit-at-a-time loop, the three
    table-driven loops, and what the checksum detects. Words hold their least significant bit
    first, so `crc >> 1` drops the first bit and `crc & 1` reads it. */
module Crc32 {
  import opened Words

  type U32 = x: Bits | |x| == 32 witness Zeros(32)

  // The bits of a hexadecimal digit.
  function Hex(d: nat): (r: Bits)
    ensures |r| == 4
  {
    [d % 2 == 1, d / 2 % 2 == 1, d / 4 % 2 == 1, d / 8 % 2 == 1]
  }

  // 0xedb88320, the reflected generator polynomial of section 3.2.9 of IEEE 802.3-2008.
  const CRCPOLY_LE: U32 :=
    Hex(0x0) + Hex(0x2) + Hex(0x3) + Hex(0x8) + Hex(0x8) + Hex(0xb) + Hex(0xd) + Hex(0xe)

  // Zero extension to a word.
  function Extend(b: Bits): U32
    requires |b| <= 32
  {
    b + Zeros(32 - |b|)
  }

  /** One pass of the inner loop: divide by x. */
  function Shift(crc: U32, poly: U32): U32 {
    Xor(Right(crc, 1), if crc[0] then poly else Zeros(32))
  }

  function Shifts(n: nat, crc: U32, poly: U32): U32 {
    if n == 0 then crc else Shifts(n - 1, Shift(crc, poly), poly)
  }

  function FeedByte(crc: U32, b: Byte, poly: U32): U32 {
    Shifts(8, Xor(crc, Extend(b)), poly)
  }

  /** The checksum of a message, byte by byte: what each of the four loops computes. */
  function Crc(crc: U32, p: seq<Byte>, poly: U32): U32
    decreases |p|
  {
    if p == [] then crc else Crc(FeedByte(crc, p[0], poly), p[1..], poly)
  }

  // ----- Algebra of words over GF(2) -----

  lemma XorLaws(x: U32, y: U32, z: U32)
    ensures Xor(x, Zeros(32)) == x && Xor(Zeros(32), x) == x
    ensures Xor(x, x) == Zeros(32)
    ensures Xor(x, y) == Xor(y, x)
    ensures Xor(Xor(x, y), z) == Xor(x, Xor(y, z))
  {
  }

  lemma XorCancels(x: U32, y: U32, z: U32)
    requires Xor(x, y) == Xor(x, z)
    ensures y == z
  {
    forall i | 0 <= i < 32
      ensures y[i] == z[i]
    {
      assert Xor(x, y)[i] == Xor(x, z)[i];
    }
  }

  lemma Linear(x: U32, y: U32, poly: U32)
    ensures Shift(Xor(x, y), poly) == Xor(Shift(x, poly), Shift(y, poly))
  {
  }

  lemma {:induction false} ShiftsLinear(n: nat, x: U32, y: U32, poly: U32)
    ensures Shifts(n, Xor(x, y), poly) == Xor(Shifts(n, x, poly), Shifts(n, y, poly))
  {
    if n != 0 {
      Linear(x, y, poly);
      ShiftsLinear(n - 1, Shift(x, poly), Shift(y, poly), poly);
    }
  }

  // With the top coefficient set, the bit shifted out can be read back from the top of the result.
  lemma ShiftInjective(x: U32, y: U32, poly: U32)
    requires poly[31] && Shift(x, poly) == Shift(y, poly)
    ensures x == y
  {
    assert Shift(x, poly)[31] == x[0] && Shift(y, poly)[31] == y[0];
    var tap := if x[0] then poly else Zeros(32);
    XorLaws(Right(x, 1), tap, tap);
    XorLaws(Right(y, 1), tap, tap);
    XorCancels(tap, Right(x, 1), Right(y, 1));
    forall i | 0 < i < 32
      ensures x[i] == y[i]
    {
      assert Right(x, 1)[i - 1] == Right(y, 1)[i - 1];
    }
  }

  lemma {:induction false} ShiftsInjective(n: nat, x: U32, y: U32, poly: U32)
    requires poly[31] && Shifts(n, x, poly) == Shifts(n, y, poly)
    ensures x == y
  {
    if n != 0 {
      ShiftsInjective(n - 1, Shift(x, poly), Shift(y, poly), poly);
      ShiftInjective(x, y, poly);
    }
  }

  lemma {:induction false} ShiftsOfZero(n: nat, poly: U32)
    ensures Shifts(n, Zeros(32), poly) == Zeros(32)
  {
    if n != 0 {
      assert Shift(Zeros(32), poly) == Zeros(32);
      ShiftsOfZero(n - 1, poly);
    }
  }

  // ----- Bit at a time -----

  function Feed(crc: U32, bits: Bits, poly: U32): U32
    decreases |bits|
  {
    if bits == [] then crc else Feed(Shift(Xor(crc, Extend([bits[0]])), poly), bits[1..], poly)
  }

  lemma {:induction false} FeedConcat(crc: U32, a: Bits, b: Bits, poly: U32)
    ensures Feed(crc, a + b, poly) == Feed(Feed(crc, a, poly), b, poly)
    decreases |a|
  {
    if a == [] {
      assert a + b == b;
    } else {
      assert (a + b)[1..] == a[1..] + b;
      FeedConcat(Shift(Xor(crc, Extend([a[0]])), poly), a[1..], b, poly);
    }
  }

  /** Up to a word's worth of bits may be mixed in at once and shifted through afterwards. */
  lemma {:induction false} FeedWord(crc: U32, bits: Bits, poly: U32)
    requires |bits| <= 32
    ensures Feed(crc, bits, poly) == Shifts(|bits|, Xor(crc, Extend(bits)), poly)
    decreases |bits|
  {
    if bits == [] {
      XorLaws(crc, crc, crc);
      assert Extend(bits) == Zeros(32);
    } else {
      var b, rest := [bits[0]], bits[1..];
      var later := [false] + rest + Zeros(31 - |rest|);
      assert Extend(bits) == Xor(Extend(b), later);
      XorLaws(crc, Extend(b), later);
      Linear(Xor(crc, Extend(b)), later, poly);
      assert Right(later, 1) == Extend(rest);
      XorLaws(Extend(rest), crc, crc);
      assert Shift(later, poly) == Extend(rest);
      FeedWord(Shift(Xor(crc, Extend(b)), poly), rest, poly);
    }
  }

  function Flatten(p: seq<Byte>): Bits {
    if p == [] then [] else p[0] + Flatten(p[1..])
  }

  /** The byte loop is the bit loop on the message's bits in transmission order. */
  lemma {:induction false} CrcIsFeed(crc: U32, p: seq<Byte>, poly: U32)
    ensures Crc(crc, p, poly) == Feed(crc, Flatten(p), poly)
    decreases |p|
  {
    if p != [] {
      FeedConcat(crc, p[0], Flatten(p[1..]), poly);
      FeedWord(crc, p[0], poly);
      CrcIsFeed(FeedByte(crc, p[0], poly), p[1..], poly);
    }
  }

  // ----- The checksum as a remainder -----

  /** Schoolbook division of a polynomial over GF(2), highest coefficient first, by x^32 + poly:
      whenever the leading coefficient is set, subtract the divisor under it. */
  function Remainder(d: Bits, poly: U32): U32
    requires 32 <= |d|
    decreases |d|
  {
    if |d| == 32 then d
    else if d[0] then Remainder(Xor(d[1..33], poly) + d[33..], poly)
    else Remainder(d[1..], poly)
  }

  // The first 32 coefficients changed by the initial register contents.
  function MixIn(crc: U32, d: Bits): (r: Bits)
    requires 32 <= |d|
    ensures |r| == |d|
  {
    Xor(crc, d[..32]) + d[32..]
  }

  // The 32 coefficients below the leading one, after subtracting the divisor if it was set.
  lemma DivideWord(crc: U32, d: Bits, poly: U32)
    requires 32 < |d|
    ensures Xor(MixIn(crc, d)[1..33], if MixIn(crc, d)[0] then poly else Zeros(32))
         == Xor(Shift(Xor(crc, Extend([d[0]])), poly), d[1..33])
  {
    var mixed, mask := MixIn(crc, d), Xor(crc, Extend([d[0]]));
    var tap: U32 := if mixed[0] then poly else Zeros(32);
    assert mixed[0] == mask[0];
    forall i | 0 <= i < 32
      ensures Xor(mixed[1..33], tap)[i] == Xor(Shift(mask, poly), d[1..33])[i]
    {
      assert mixed[1..33][i] == ((if i < 31 then crc[i + 1] else false) != d[i + 1]);
      assert Shift(mask, poly)[i] == ((if i < 31 then crc[i + 1] else false) != tap[i]);
    }
  }

  lemma DivideOnce(crc: U32, d: Bits, poly: U32)
    requires 32 < |d|
    ensures Remainder(MixIn(crc, d), poly) == Remainder(MixIn(Shift(Xor(crc, Extend([d[0]])), poly), d[1..]), poly)
  {
    DivideWord(crc, d, poly);
    var mixed, next := MixIn(crc, d), Shift(Xor(crc, Extend([d[0]])), poly);
    assert mixed[33..] == d[33..];
    assert MixIn(next, d[1..]) == Xor(next, d[1..33]) + d[33..];
    if !mixed[0] {
      XorLaws(mixed[1..33], next, next);
      assert mixed[1..] == mixed[1..33] + mixed[33..];
    }
  }

  lemma {:induction false} DivisionIsFeed(crc: U32, d: Bits, poly: U32)
    requires 32 <= |d|
    ensures Remainder(MixIn(crc, d), poly) == Xor(Feed(crc, d[..|d| - 32], poly), d[|d| - 32..])
    decreases |d|
  {
    if |d| == 32 {
      assert d[..32] == d && d[32..] == [] && MixIn(crc, d) == Xor(crc, d);
    } else {
      DivideOnce(crc, d, poly);
      DivisionIsFeed(Shift(Xor(crc, Extend([d[0]])), poly), d[1..], poly);
      assert d[..|d| - 32][1..] == d[1..][..|d| - 33];
    }
  }

  /** The checksum is the remainder of the message, shifted up by 32 places and with the initial
      value added to its first 32 coefficients, on division by the generator polynomial. */
  lemma CrcIsRemainder(crc: U32, p: seq<Byte>, poly: U32)
    ensures Crc(crc, p, poly) == Remainder(MixIn(crc, Flatten(p) + Zeros(32)), poly)
  {
    var d := Flatten(p) + Zeros(32);
    CrcIsFeed(crc, p, poly);
    DivisionIsFeed(crc, d, poly);
    assert d[..|d| - 32] == Flatten(p) && d[|d| - 32..] == Zeros(32);
    XorLaws(Feed(crc, Flatten(p), poly), crc, crc);
  }

  lemma {:induction false} FlattenConcat(p: seq<Byte>, q: seq<Byte>)
    ensures Flatten(p + q) == Flatten(p) + Flatten(q)
  {
    if p == [] {
      assert p + q == q;
    } else {
      assert (p + q)[1..] == p[1..] + q;
      FlattenConcat(p[1..], q);
    }
  }

  lemma {:induction false} FlattenLength(p: seq<Byte>)
    ensures |Flatten(p)| == 8 * |p|
  {
    if p != [] {
      FlattenLength(p[1..]);
    }
  }

  lemma {:induction false} FlattenAt(p: seq<Byte>, i: nat, j: nat)
    requires i < |p| && j < 8
    ensures |Flatten(p)| == 8 * |p| && Flatten(p)[8 * i + j] == p[i][j]
  {
    if i == 0 {
      FlattenLength(p);
    } else {
      FlattenAt(p[1..], i - 1, j);
      assert Flatten(p)[8 * i + j] == Flatten(p[1..])[8 * (i - 1) + j];
    }
  }

  lemma FlattenInjective(p: seq<Byte>, q: seq<Byte>)
    requires Flatten(p) == Flatten(q)
    ensures p == q
  {
    FlattenLength(p);
    FlattenLength(q);
    forall i | 0 <= i < |p|
      ensures p[i] == q[i]
    {
      forall j | 0 <= j < 8
        ensures p[i][j] == q[i][j]
      {
        FlattenAt(p, i, j);
        FlattenAt(q, i, j);
      }
    }
  }

  /** A message may be checksummed in pieces. */
  lemma CrcConcat(crc: U32, p: seq<Byte>, q: seq<Byte>, poly: U32)
    ensures Crc(crc, p + q, poly) == Crc(Crc(crc, p, poly), q, poly)
  {
    FlattenConcat(p, q);
    FeedConcat(crc, Flatten(p), Flatten(q), poly);
    CrcIsFeed(crc, p + q, poly);
    CrcIsFeed(crc, p, poly);
    CrcIsFeed(Crc(crc, p, poly), q, poly);
  }

  // A word as four little-endian bytes.
  function Bytes(x: U32): seq<Byte> {
    [x[..8], x[8..16], x[16..24], x[24..]]
  }

  lemma FlattenBytes(x: U32)
    ensures Flatten(Bytes(x)) == x
  {
    var p := Bytes(x);
    assert p[1..][1..] == [x[16..24], x[24..]];
    assert Flatten(p[1..][1..][1..]) == x[24..] + Flatten([]);
    assert Flatten(p[1..][1..]) == x[16..24] + x[24..];
  }

  lemma CrcOfWord(crc: U32, x: U32, poly: U32)
    ensures Crc(crc, Bytes(x), poly) == Shifts(32, Xor(crc, x), poly)
  {
    CrcIsFeed(crc, Bytes(x), poly);
    FlattenBytes(x);
    FeedWord(crc, x, poly);
    assert Extend(x) == x;
  }

  /** Appending a message's own checksum drives the state to zero. */
  lemma SelfCancels(crc: U32, p: seq<Byte>, poly: U32)
    ensures Crc(crc, p + Bytes(Crc(crc, p, poly)), poly) == Zeros(32)
  {
    var sum := Crc(crc, p, poly);
    CrcConcat(crc, p, Bytes(sum), poly);
    CrcOfWord(sum, sum, poly);
    XorLaws(sum, sum, sum);
    ShiftsOfZero(32, poly);
  }

  /** For a generator with its top coefficient set, no other four bytes do. */
  lemma OnlyTheChecksumCancels(crc: U32, p: seq<Byte>, x: U32, poly: U32)
    requires poly[31]
    ensures Crc(crc, p + Bytes(x), poly) == Zeros(32) <==> x == Crc(crc, p, poly)
  {
    SelfCancels(crc, p, poly);
    var sum := Crc(crc, p, poly);
    CrcConcat(crc, p, Bytes(x), poly);
    CrcOfWord(sum, x, poly);
    ShiftsOfZero(32, poly);
    if Crc(crc, p + Bytes(x), poly) == Zeros(32) {
      ShiftsInjective(32, Xor(sum, x), Zeros(32), poly);
      XorLaws(sum, sum, sum);
      XorCancels(sum, sum, x);
    }
  }

  // ----- Error detection -----

  ghost predicate DifferOnlyWithin(a: Bits, b: Bits, i: nat, n: nat) {
    |a| == |b| && forall k :: 0 <= k < |a| && !(i <= k < i + n) ==> a[k] == b[k]
  }

  lemma {:induction false} FeedInjective(x: U32, y: U32, bits: Bits, poly: U32)
    requires poly[31] && Feed(x, bits, poly) == Feed(y, bits, poly)
    ensures x == y
    decreases |bits|
  {
    if bits != [] {
      var b := Extend([bits[0]]);
      FeedInjective(Shift(Xor(x, b), poly), Shift(Xor(y, b), poly), bits[1..], poly);
      ShiftInjective(Xor(x, b), Xor(y, b), poly);
      XorLaws(x, b, b);
      XorLaws(y, b, b);
      XorCancels(b, x, y);
    }
  }

  lemma WindowDetected(crc: U32, a: Bits, b: Bits, poly: U32)
    requires poly[31] && |a| == |b| <= 32 && a != b
    ensures Feed(crc, a, poly) != Feed(crc, b, poly)
  {
    FeedWord(crc, a, poly);
    FeedWord(crc, b, poly);
    assert a == Extend(a)[..|a|] && b == Extend(b)[..|a|];
    if Feed(crc, a, poly) == Feed(crc, b, poly) {
      ShiftsInjective(|a|, Xor(crc, Extend(a)), Xor(crc, Extend(b)), poly);
      XorCancels(crc, Extend(a), Extend(b));
    }
  }

  lemma BurstDetected(crc: U32, a: Bits, b: Bits, i: nat, poly: U32)
    requires poly[31] && DifferOnlyWithin(a, b, i, 32) && a != b
    ensures Feed(crc, a, poly) != Feed(crc, b, poly)
  {
    var lo := if i <= |a| then i else |a|;
    var hi := if i + 32 <= |a| then i + 32 else |a|;
    assert a == a[..lo] + (a[lo..hi] + a[hi..]);
    assert b == a[..lo] + (b[lo..hi] + a[hi..]);
    var mid := Feed(crc, a[..lo], poly);
    FeedConcat(crc, a[..lo], a[lo..hi] + a[hi..], poly);
    FeedConcat(crc, a[..lo], b[lo..hi] + a[hi..], poly);
    FeedConcat(mid, a[lo..hi], a[hi..], poly);
    FeedConcat(mid, b[lo..hi], a[hi..], poly);
    WindowDetected(mid, a[lo..hi], b[lo..hi], poly);
    if Feed(crc, a, poly) == Feed(crc, b, poly) {
      FeedInjective(Feed(mid, a[lo..hi], poly), Feed(mid, b[lo..hi], poly), a[hi..], poly);
    }
  }

  /** Two different messages that differ only inside 32 consecutive bits never share a checksum. */
  ghost predicate DetectsBursts(poly: U32) {
    forall crc: U32, p: seq<Byte>, q: seq<Byte>, i: nat ::
      DifferOnlyWithin(Flatten(p), Flatten(q), i, 32) && p != q ==> Crc(crc, p, poly) != Crc(crc, q, poly)
  }

  // Without the top coefficient, x * poly + 1 is shifted to zero.
  lemma BurstMissed(poly: U32)
    requires !poly[31]
    ensures !DetectsBursts(poly)
  {
    var d: U32 := [true] + poly[..31];
    var zero: U32 := Zeros(32);
    CrcOfWord(zero, d, poly);
    CrcOfWord(zero, zero, poly);
    XorLaws(d, d, d);
    XorLaws(zero, zero, zero);
    assert Right(d, 1) == poly;
    XorLaws(poly, poly, poly);
    assert Shift(d, poly) == zero;
    ShiftsOfZero(31, poly);
    ShiftsOfZero(32, poly);
    FlattenBytes(d);
    FlattenBytes(zero);
    assert Bytes(d)[0][0] != Bytes(zero)[0][0];
    assert DifferOnlyWithin(Flatten(Bytes(d)), Flatten(Bytes(zero)), 0, 32);
  }

  lemma DetectsBurstsIff(poly: U32)
    ensures DetectsBursts(poly) <==> poly[31]
  {
    if poly[31] {
      forall crc: U32, p: seq<Byte>, q: seq<Byte>, i: nat
        | DifferOnlyWithin(Flatten(p), Flatten(q), i, 32) && p != q
        ensures Crc(crc, p, poly) != Crc(crc, q, poly)
      {
        CrcIsFeed(crc, p, poly);
        CrcIsFeed(crc, q, poly);
        if Flatten(p) == Flatten(q) {
          FlattenInjective(p, q);
        }
        BurstDetected(crc, Flatten(p), Flatten(q), i, poly);
      }
    } else {
      BurstMissed(poly);
    }
  }

  // Messages that agree outside four consecutive bytes agree outside 32 consecutive bits.
  lemma ByteBurstAt(p: seq<Byte>, q: seq<Byte>, j: nat, i: nat)
    requires |p| == |q| && j < |p| && i < 8 && p[j] == q[j]
    ensures |Flatten(p)| == |Flatten(q)| == 8 * |p| && Flatten(p)[8 * j + i] == Flatten(q)[8 * j + i]
  {
    FlattenLength(p);
    FlattenLength(q);
    FlattenAt(p, j, i);
    FlattenAt(q, j, i);
  }

  lemma ByteBurst(p: seq<Byte>, q: seq<Byte>, at: nat)
    requires |p| == |q|
    requires forall k :: 0 <= k < |p| && !(at <= k < at + 4) ==> p[k] == q[k]
    ensures DifferOnlyWithin(Flatten(p), Flatten(q), 8 * at, 32)
  {
    FlattenLength(p);
    FlattenLength(q);
    forall k | 0 <= k < 8 * |p| && !(8 * at <= k < 8 * at + 32)
      ensures Flatten(p)[k] == Flatten(q)[k]
    {
      ByteBurstAt(p, q, k / 8, k % 8);
    }
  }

  lemma HexDigits()
    ensures Hex(0x0) == [false, false, false, false] && Hex(0x2) == [false, true, false, false]
    ensures Hex(0x3) == [true, true, false, false] && Hex(0x8) == [false, false, false, true]
    ensures Hex(0xb) == [true, true, false, true] && Hex(0xd) == [true, false, true, true]
    ensures Hex(0xe) == [false, true, true, true]
  {
  }

  /** The generator is that of the standard, x^32 + x^26 + x^23 + x^22 + x^16 + x^12 + x^11 + x^10 +
      x^8 + x^7 + x^5 + x^4 + x^2 + x + 1, with the coefficient of x^31 in bit 0. */
  lemma GeneratorIsStandard(i: nat)
    requires i < 32
    ensures CRCPOLY_LE[i] <==> 31 - i in {26, 23, 22, 16, 12, 11, 10, 8, 7, 5, 4, 2, 1, 0}
  {
    HexDigits();
  }

  /** The burst theorem on whole bytes, for the checksum `crc32_le` computes. */
  lemma FourByteBurstDetected(crc: U32, p: seq<Byte>, q: seq<Byte>, at: nat)
    requires |p| == |q| && p != q
    requires forall k :: 0 <= k < |p| && !(at <= k < at + 4) ==> p[k] == q[k]
    ensures Crc(crc, p, CRCPOLY_LE) != Crc(crc, q, CRCPOLY_LE)
  {
    ByteBurst(p, q, at);
    GeneratorIsStandard(31);
    DetectsBurstsIff(CRCPOLY_LE);
  }

  // ----- Several bits at a time -----

  /** A table of `2^bits` entries, each holding `bits` single-bit steps of its index. */
  ghost predicate IsTable(tab: seq<U32>, bits: nat, poly: U32)
    requires bits <= 32
  {
    forall x: Bits :: |x| == bits ==>
      Value(x) < |tab| && tab[Value(x)] == Shifts(bits, Extend(x), poly)
  }

  function TableOf(bits: nat, poly: U32): seq<U32>
    requires bits <= 32
  {
    seq(Pow2(bits), i requires 0 <= i => Shifts(bits, Extend(FromNat(bits, i)), poly))
  }

  // Such tables exist for every polynomial.
  lemma TableOfIsTable(bits: nat, poly: U32)
    requires bits <= 32
    ensures IsTable(TableOf(bits, poly), bits, poly)
  {
    forall x: Bits | |x| == bits
      ensures Value(x) < Pow2(bits)
    {
      ValueBound(x);
    }
  }

  lemma {:induction false} ShiftsOfMultiple(n: nat, x: U32, poly: U32)
    requires n <= 32 && x[..n] == Zeros(n)
    ensures Shifts(n, x, poly) == Right(x, n)
  {
    if n == 0 {
      assert Right(x, 0) == x;
    } else {
      assert !x[..n][0] && x[1..n] == x[..n][1..] == Zeros(n - 1);
      XorLaws(Right(x, 1), x, x);
      assert Right(x, 1)[..n - 1] == x[1..n];
      ShiftsOfMultiple(n - 1, Right(x, 1), poly);
      assert Right(Right(x, 1), n - 1) == Right(x, n);
    }
  }

  /** One table look-up does the work of `n` single-bit steps. */
  lemma SeveralAtATime(n: nat, x: U32, poly: U32)
    requires n <= 32
    ensures Shifts(n, x, poly) == Xor(Right(x, n), Shifts(n, Extend(x[..n]), poly))
  {
    var high: U32 := Zeros(n) + x[n..];
    assert x == Xor(high, Extend(x[..n]));
    ShiftsLinear(n, high, Extend(x[..n]), poly);
    ShiftsOfMultiple(n, high, poly);
    assert Right(high, n) == Right(x, n);
  }

  lemma {:induction false} ShiftsAdd(m: nat, n: nat, x: U32, poly: U32)
    ensures Shifts(m + n, x, poly) == Shifts(n, Shifts(m, x, poly), poly)
  {
    if m != 0 {
      ShiftsAdd(m - 1, n, Shift(x, poly), poly);
    }
  }

  // ----- The four loops -----

  method Crc32LeBits1(start: U32, p: seq<Byte>, poly: U32) returns (crc: U32)
    ensures crc == Crc(start, p, poly)
  {
    crc := start;
    var rest := p;
    while rest != []
      invariant Crc(crc, rest, poly) == Crc(start, p, poly)
      decreases |rest|
    {
      crc := Xor(crc, Extend(rest[0]));
      ghost var mixed := crc;
      for i := 0 to 8
        invariant Shifts(8 - i, crc, poly) == Shifts(8, mixed, poly)
      {
        crc := Xor(Right(crc, 1), if crc[0] then poly else Zeros(32));
      }
      rest := rest[1..];
    }
  }

  method TableStep(crc: U32, bits: nat, tab: seq<U32>, poly: U32) returns (r: U32)
    requires bits <= 32 && IsTable(tab, bits, poly)
    ensures r == Shifts(bits, crc, poly)
  {
    SeveralAtATime(bits, crc, poly);
    r := Xor(Right(crc, bits), tab[Value(crc[..bits])]);
  }

  method Crc32LeBits2(start: U32, p: seq<Byte>, tab: seq<U32>, poly: U32) returns (crc: U32)
    requires IsTable(tab, 2, poly)
    ensures crc == Crc(start, p, poly)
  {
    crc := start;
    var rest := p;
    while rest != []
      invariant Crc(crc, rest, poly) == Crc(start, p, poly)
      decreases |rest|
    {
      crc := Xor(crc, Extend(rest[0]));
      ShiftsAdd(2, 6, crc, poly);
      crc := TableStep(crc, 2, tab, poly);
      ShiftsAdd(2, 4, crc, poly);
      crc := TableStep(crc, 2, tab, poly);
      ShiftsAdd(2, 2, crc, poly);
      crc := TableStep(crc, 2, tab, poly);
      crc := TableStep(crc, 2, tab, poly);
      rest := rest[1..];
    }
  }

  method Crc32LeBits4(start: U32, p: seq<Byte>, tab: seq<U32>, poly: U32) returns (crc: U32)
    requires IsTable(tab, 4, poly)
    ensures crc == Crc(start, p, poly)
  {
    crc := start;
    var rest := p;
    while rest != []
      invariant Crc(crc, rest, poly) == Crc(start, p, poly)
      decreases |rest|
    {
      crc := Xor(crc, Extend(rest[0]));
      ShiftsAdd(4, 4, crc, poly);
      crc := TableStep(crc, 4, tab, poly);
      crc := TableStep(crc, 4, tab, poly);
      rest := rest[1..];
    }
  }

  method Crc32LeBits8(start: U32, p: seq<Byte>, tab: seq<U32>, poly: U32) returns (crc: U32)
    requires IsTable(tab, 8, poly)
    ensures crc == Crc(start, p, poly)
  {
    crc := start;
    var rest := p;
    while rest != []
      invariant Crc(crc, rest, poly) == Crc(start, p, poly)
      decreases |rest|
    {
      crc := Xor(crc, Extend(rest[0]));
      crc := TableStep(crc, 8, tab, poly);
      rest := rest[1..];
    }
  }

  // Built one bit at a time: the null table is never looked at.
  method Crc32Le(start: U32, p: seq<Byte>) returns (crc: U32)
    ensures crc == Crc(start, p, CRCPOLY_LE)
  {
    crc := Crc32LeBits1(start, p, CRCPOLY_LE);
  }
}
