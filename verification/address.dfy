/**
 Conversion between the dotted-quad text of an IPv4 address and its
 32-bit number (`ipToNumber` and `numberToIp` in scanner.js).

 `ipToNumber` splits the text on dots, parses each piece with `parseInt`
 and folds the pieces left to right with `(acc << 8) + octet`, starting
 from 0, and finally applies `>>> 0`. The shift goes through JavaScript's
 signed 32-bit arithmetic, so the accumulator can turn negative on the way;
 the final `>>> 0` brings it back into the unsigned range. `numberToIp`
 takes the four bytes with `>>>` and `& 0xff` and joins their decimal
 texts with dots.
 */
module Address {
  import opened Bits
  import opened Text

  /** A piece `parseInt` reads exactly and that fits in a byte. */
  predicate IsOctetText(p: string) {
    IsDigits(p) && ParseDigits(p) <= 255
  }

  /**
   The texts `ipToNumber` is used on: dot-separated pieces, each an octet
   text. The number of pieces is not checked by the scanner.
   */
  predicate IsAddressText(ip: string) {
    AllOctetTexts(Split(ip, '.'))
  }

  predicate AllOctetTexts(parts: seq<string>) {
    forall k :: 0 <= k < |parts| ==> IsOctetText(parts[k])
  }

  /** The canonical dotted quad: four octet texts without superfluous leading zeros. */
  predicate IsDottedQuad(ip: string) {
    var parts := Split(ip, '.');
    && |parts| == 4
    && forall k :: 0 <= k < 4 ==> IsCanonicalDecimal(parts[k]) && ParseDigits(parts[k]) <= 255
  }

  function OctetValues(parts: seq<string>): (vs: seq<nat>)
    requires AllOctetTexts(parts)
    ensures |vs| == |parts|
    ensures forall k :: 0 <= k < |parts| ==> vs[k] == ParseDigits(parts[k]) <= 255
  {
    if |parts| == 0 then [] else OctetValues(parts[..|parts| - 1]) + [ParseDigits(parts[|parts| - 1])]
  }

  /** The `reduce` of `ipToNumber`: `(acc << 8) + octet` over the octets, from 0. */
  function Accumulate(vs: seq<nat>): int {
    if |vs| == 0 then 0 else JsShiftLeft8(Accumulate(vs[..|vs| - 1])) + vs[|vs| - 1]
  }

  /** `ipToNumber(ip)`. */
  function IpToNumber(ip: string): Uint32
    requires IsAddressText(ip)
  {
    ToUint32(Accumulate(OctetValues(Split(ip, '.'))))
  }

  /** The number whose base-256 digits, most significant first, are `vs`. */
  function BigEndian(vs: seq<nat>): nat {
    if |vs| == 0 then 0 else 256 * BigEndian(vs[..|vs| - 1]) + vs[|vs| - 1]
  }

  /** `(num >>> k) & 0xff`: the byte of `num` that starts at bit `k`. */
  function ByteAt(num: Uint32, k: nat): (b: nat)
    requires k < 32
    ensures b == (num / Pow2(k)) % 256
  {
    var v := JsUnsignedShiftRight(num, k);
    UnsignedShiftRightValue(num, k);
    JsAndLowByte(v);
    DivModUnique(v, TWO32, 0, v);
    JsAnd(v, 0xff)
  }

  /** `num & 0xff`: the lowest byte of `num`. */
  function LowByte(num: Uint32): (b: nat)
    ensures b == num % 256
  {
    JsAndLowByte(num);
    DivModUnique(num, TWO32, 0, num);
    JsAnd(num, 0xff)
  }

  /** The four bytes `numberToIp` extracts, most significant first. */
  function Octets(num: Uint32): (os: seq<nat>)
    ensures |os| == 4
    ensures os[0] == (num / 0x100_0000) % 256 && os[1] == (num / 0x1_0000) % 256
    ensures os[2] == (num / 0x100) % 256 && os[3] == num % 256
  {
    Pow2Of32();
    [ByteAt(num, 24), ByteAt(num, 16), ByteAt(num, 8), LowByte(num)]
  }

  /** `numberToIp(num)`. */
  function NumberToIp(num: Uint32): string {
    Join(OctetTexts(num), '.')
  }

  /** The decimal texts of the four bytes, the pieces `numberToIp` joins. */
  function OctetTexts(num: Uint32): (ts: seq<string>)
    ensures |ts| == 4
  {
    DecimalTexts(Octets(num))
  }

  // ---------------------------------------------------------------------
  // Properties
  // ---------------------------------------------------------------------

  lemma ModWrapped(x: int, q: int)
    ensures (x - TWO32 * q) % TWO32 == x % TWO32
  {
    DivModUnique(x - TWO32 * q, TWO32, x / TWO32 - q, x % TWO32);
  }

  lemma ToInt32Modulo(x: int)
    ensures ToInt32(x) % TWO32 == x % TWO32
  {
    var m := x % TWO32;
    DivModUnique(m, TWO32, 0, m);
    ModWrapped(m, 1);
  }

  lemma ModScale(x: int, y: int, v: int)
    requires x % TWO32 == y % TWO32
    ensures (256 * x + v) % TWO32 == (256 * y + v) % TWO32
  {
    var r := x % TWO32;
    assert x == TWO32 * (x / TWO32) + r;
    assert y == TWO32 * (y / TWO32) + r;
    ModWrapped(256 * r + v, -256 * (x / TWO32));
    ModWrapped(256 * r + v, -256 * (y / TWO32));
  }

  lemma ModShift(x: int, y: int, v: int)
    requires x % TWO32 == y % TWO32
    ensures (x + v) % TWO32 == (y + v) % TWO32
  {
    var r := x % TWO32;
    assert x == TWO32 * (x / TWO32) + r;
    assert y == TWO32 * (y / TWO32) + r;
    ModWrapped(r + v, -(x / TWO32));
    ModWrapped(r + v, -(y / TWO32));
  }

  /**
   The signed 32-bit detours of `<<` do not matter: modulo 2^32 the fold
   computes the base-256 number of the octets.
   */
  lemma {:induction false} AccumulateModulo(vs: seq<nat>)
    ensures ToUint32(Accumulate(vs)) == BigEndian(vs) % TWO32
  {
    if |vs| > 0 {
      var p, v := vs[..|vs| - 1], vs[|vs| - 1];
      AccumulateModulo(p);
      var a := Accumulate(p);
      var i := ToInt32(a);
      ToInt32Modulo(a);
      ToInt32Modulo(256 * i);
      ModScale(i, BigEndian(p), 0);
      ModShift(JsShiftLeft8(a), 256 * BigEndian(p), v);
    }
  }

  lemma BigEndianFour(vs: seq<nat>)
    requires |vs| == 4
    ensures BigEndian(vs) == 256 * (256 * (256 * vs[0] + vs[1]) + vs[2]) + vs[3]
  {
    var v3, v2, v1 := vs[..3], vs[..2], vs[..1];
    assert v3[..2] == v2 && v2[..1] == v1 && v1[..0] == [];
    assert BigEndian(v1) == vs[0];
    assert BigEndian(v2) == 256 * vs[0] + vs[1];
    assert BigEndian(v3) == 256 * BigEndian(v2) + vs[2];
  }

  /** `numberToIp`'s bytes are the base-256 digits of the number. */
  lemma OctetsDigits(num: Uint32)
    ensures forall k :: 0 <= k < 4 ==> Octets(num)[k] < 256
    ensures BigEndian(Octets(num)) == num
  {
    Base256(num);
    BigEndianFour(Octets(num));
    FourBelow(Octets(num), 256);
  }

  lemma FourBelow(vs: seq<nat>, bound: nat)
    requires |vs| == 4 && vs[0] < bound && vs[1] < bound && vs[2] < bound && vs[3] < bound
    ensures forall k :: 0 <= k < 4 ==> vs[k] < bound
  {
  }

  /** A 32-bit number is the sum of its four base-256 digits, as `Octets` extracts them. */
  lemma Base256(n: int)
    requires 0 <= n < TWO32
    ensures n / 0x100_0000 < 256
    ensures n == 256 * (256 * (256 * ((n / 0x100_0000) % 256) + (n / 0x1_0000) % 256)
      + (n / 0x100) % 256) + n % 256
  {
    var q1, r0 := n / 256, n % 256;
    var q2, r1 := q1 / 256, q1 % 256;
    var q3, r2 := q2 / 256, q2 % 256;
    DivModUnique(n, 0x1_0000, q2, 256 * r1 + r0);
    DivModUnique(n, 0x100_0000, q3, 0x1_0000 * r2 + 256 * r1 + r0);
    DivModUnique(q3, 256, 0, q3);
  }

  /** Base-256 digits are unique. */
  lemma BigEndianFourInjective(xs: seq<nat>, ys: seq<nat>)
    requires |xs| == 4 && forall k :: 0 <= k < 4 ==> xs[k] < 256
    requires |ys| == 4 && forall k :: 0 <= k < 4 ==> ys[k] < 256
    requires BigEndian(xs) == BigEndian(ys)
    ensures xs == ys
  {
    BigEndianFour(xs);
    BigEndianFour(ys);
    var n := BigEndian(xs);
    var a := 256 * (256 * xs[0] + xs[1]) + xs[2];
    var b := 256 * (256 * ys[0] + ys[1]) + ys[2];
    DivModUnique(n, 256, a, xs[3]);
    DivModUnique(n, 256, b, ys[3]);
    DivModUnique(a, 256, 256 * xs[0] + xs[1], xs[2]);
    DivModUnique(a, 256, 256 * ys[0] + ys[1], ys[2]);
    DivModUnique(256 * xs[0] + xs[1], 256, xs[0], xs[1]);
    DivModUnique(256 * xs[0] + xs[1], 256, ys[0], ys[1]);
  }

  /** Four bytes fit in 32 bits, and `numberToIp` finds them again. */
  lemma OctetsOfBigEndian(vs: seq<nat>)
    requires |vs| == 4 && forall k :: 0 <= k < 4 ==> vs[k] < 256
    ensures BigEndian(vs) < TWO32
    ensures Octets(BigEndian(vs)) == vs
  {
    BigEndianFour(vs);
    OctetsDigits(BigEndian(vs));
    BigEndianFourInjective(Octets(BigEndian(vs)), vs);
  }

  /** `numberToIp` always yields a canonical dotted quad, whose pieces are the bytes' texts. */
  lemma NumberToIpIsDottedQuad(num: Uint32)
    ensures Split(NumberToIp(num), '.') == OctetTexts(num)
    ensures IsDottedQuad(NumberToIp(num))
  {
    OctetTextsParse(num);
    SplitJoin(OctetTexts(num), '.');
  }

  lemma OctetTextsParse(num: Uint32)
    ensures forall k :: 0 <= k < 4 ==> '.' !in OctetTexts(num)[k]
    ensures forall k :: 0 <= k < 4 ==>
      IsCanonicalDecimal(OctetTexts(num)[k]) && ParseDigits(OctetTexts(num)[k]) == Octets(num)[k] <= 255
  {
    var os := Octets(num);
    OctetsDigits(num);
    forall k | 0 <= k < 4
      ensures '.' !in OctetTexts(num)[k]
      ensures IsCanonicalDecimal(OctetTexts(num)[k]) && ParseDigits(OctetTexts(num)[k]) == os[k] <= 255
    {
      ByteText(os[k]);
    }
  }

  lemma ByteText(b: nat)
    requires b <= 255
    ensures '.' !in DecimalString(b)
    ensures ParseDigits(DecimalString(b)) == b
  {
    ParseDecimalString(b);
    var t := DecimalString(b);
    assert forall i :: 0 <= i < |t| ==> IsDigit(t[i]);
  }

  /** Every canonical dotted quad is accepted by `ipToNumber`. */
  lemma DottedQuadIsAddressText(ip: string)
    requires IsDottedQuad(ip)
    ensures IsAddressText(ip)
  {
  }

  /** A dotted quad holds only digits and dots. */
  lemma DottedQuadAvoids(ip: string, c: char)
    requires IsDottedQuad(ip) && !IsDigit(c) && c != '.'
    ensures c !in ip
  {
    var parts := Split(ip, '.');
    forall k | 0 <= k < |parts|
      ensures c !in parts[k]
    {
      DigitsAvoid(parts[k], c);
    }
    JoinAvoids(parts, '.', c);
    JoinSplit(ip, '.');
  }

  /** The text of an address holds only digits and dots. */
  lemma NumberToIpAvoids(num: Uint32, c: char)
    requires !IsDigit(c) && c != '.'
    ensures c !in NumberToIp(num)
  {
    OctetTextsParse(num);
    forall k | 0 <= k < |OctetTexts(num)|
      ensures c !in OctetTexts(num)[k]
    {
      DigitsAvoid(OctetTexts(num)[k], c);
    }
    JoinAvoids(OctetTexts(num), '.', c);
  }

  /** From number to text and back: `ipToNumber(numberToIp(n)) == n` for every 32-bit n. */
  lemma NumberRoundTrip(num: Uint32)
    ensures IsAddressText(NumberToIp(num))
    ensures IpToNumber(NumberToIp(num)) == num
  {
    var ip := NumberToIp(num);
    NumberToIpIsDottedQuad(num);
    DottedQuadIsAddressText(ip);
    OctetsDigits(num);
    var os := Octets(num);
    var ts := OctetTexts(num);
    var vs := OctetValues(Split(ip, '.'));
    forall k | 0 <= k < 4
      ensures vs[k] == os[k]
    {
      assert ts[k] == DecimalString(os[k]);
      ParseDecimalString(os[k]);
    }
    assert vs == os;
    AccumulateModulo(os);
    DivModUnique(num, TWO32, 0, num);
  }

  /** From canonical text to number and back: `numberToIp(ipToNumber(s)) == s`. */
  lemma TextRoundTrip(ip: string)
    requires IsDottedQuad(ip)
    ensures IsAddressText(ip)
    ensures NumberToIp(IpToNumber(ip)) == ip
  {
    DottedQuadIsAddressText(ip);
    var parts := Split(ip, '.');
    var vs := OctetValues(parts);
    AccumulateModulo(vs);
    OctetsOfBigEndian(vs);
    DivModUnique(BigEndian(vs), TWO32, 0, BigEndian(vs));
    var n := IpToNumber(ip);
    assert n == BigEndian(vs);
    var os := Octets(n);
    assert os == vs;
    forall k | 0 <= k < 4
      ensures DecimalString(os[k]) == parts[k]
    {
      DecimalStringOfParse(parts[k]);
    }
    assert OctetTexts(n) == parts;
    JoinSplit(ip, '.');
  }

  /** Distinct numbers print as distinct texts. */
  lemma NumberToIpInjective(a: Uint32, b: Uint32)
    requires NumberToIp(a) == NumberToIp(b)
    ensures a == b
  {
    NumberRoundTrip(a);
    NumberRoundTrip(b);
  }
}
