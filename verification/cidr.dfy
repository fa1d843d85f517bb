/**
 Expansion of one CIDR range, `parseCIDR` in scanner.js.

 The text is split at `/` into the address half and the prefix length.
 The network mask is built as `~(2 ** (32 - prefix) - 1)`, the first
 address is `(base & mask) >>> 0`, the last is `(start | ~mask) >>> 0`,
 and every number from the first to the last, inclusive and ascending,
 is printed as a dotted quad (section 3.1 of RFC 4632 describes the block
 such a prefix denotes).

 The scanner does not validate its input: a prefix above 32, an octet
 above 255 or a missing `/` are not rejected. The model takes the readable
 form as a precondition instead, `IsRangeText`.
 */
module Cidr {
  import opened Bits
  import opened Text
  import opened Address

  /**
   A range the scanner reads as intended: an address text, `/`, then a
   decimal prefix length of at most 32. Text after a second `/` is ignored
   by the destructuring `[base, bits]`, so it is allowed here too.
   */
  predicate IsRangeText(cidr: string) {
    var parts := Split(cidr, '/');
    && |parts| >= 2
    && IsAddressText(parts[0])
    && IsDigits(parts[1]) && ParseDigits(parts[1]) <= 32
  }

  function BaseOf(cidr: string): Uint32
    requires IsRangeText(cidr)
  {
    IpToNumber(Split(cidr, '/')[0])
  }

  function PrefixOf(cidr: string): nat
    requires IsRangeText(cidr)
  {
    ParseDigits(Split(cidr, '/')[1])
  }

  /** The number of host bits of a prefix. */
  function HostBits(prefix: nat): nat
    requires prefix <= 32
  {
    32 - prefix
  }

  /** `~(2 ** (32 - prefix) - 1)`, a signed 32-bit value. */
  function Mask(prefix: nat): int
    requires prefix <= 32
  {
    JsNot(Pow2(HostBits(prefix)) - 1)
  }

  /** `(baseNum & mask) >>> 0`. */
  function BlockStart(base: Uint32, prefix: nat): Uint32
    requires prefix <= 32
  {
    ToUint32(JsAnd(base, Mask(prefix)))
  }

  /** `(start | ~mask) >>> 0`. */
  function BlockEnd(start: Uint32, prefix: nat): Uint32
    requires prefix <= 32
  {
    ToUint32(JsOr(start, JsNot(Mask(prefix))))
  }

  /**
   The reference list of the numbers from `start` to `end` in order, which
   the loop `for (let i = start; i <= end; i++)` is checked against
   (`PushSpan`); not itself a specification of the loop.
   */
  function Span(start: Uint32, end: Uint32): (ns: seq<Uint32>)
    ensures |ns| == if start <= end then end - start + 1 else 0
    ensures forall i :: 0 <= i < |ns| ==> ns[i] == start + i
  {
    var count := if start <= end then end - start + 1 else 0;
    seq(count, i requires 0 <= i < count => start + i)
  }

  /** The numbers of the block a range denotes, as the loop produces them. */
  function BlockNumbers(base: Uint32, prefix: nat): seq<Uint32>
    requires prefix <= 32
  {
    var start := BlockStart(base, prefix);
    Span(start, BlockEnd(start, prefix))
  }

  /** `parseCIDR(cidr)`: the dotted quads of the block, ascending. */
  function ParseCidr(cidr: string): seq<string>
    requires IsRangeText(cidr)
  {
    var ns := BlockNumbers(BaseOf(cidr), PrefixOf(cidr));
    seq(|ns|, i requires 0 <= i < |ns| => NumberToIp(ns[i]))
  }

  /**
   `parseCIDR(cidr)` as the source runs it: the block's bounds, then the
   loop that pushes `numberToIp(i)` for each of its numbers.
   */
  method ParseCidrLoop(cidr: string) returns (ips: seq<string>)
    requires IsRangeText(cidr)
    ensures ips == ParseCidr(cidr)
  {
    var start := BlockStart(BaseOf(cidr), PrefixOf(cidr));
    var end := BlockEnd(start, PrefixOf(cidr));
    ips := PushSpan(start, end, NumberToIp);
  }

  /**
   The loop `for (let i = start; i <= end; i++) ips.push(f(i))`. The
   counter is a JavaScript number, so it may step past the largest 32-bit
   value when the loop ends.
   */
  method PushSpan<T>(start: Uint32, end: Uint32, f: Uint32 -> T) returns (xs: seq<T>)
    ensures var ns := Span(start, end);
      |xs| == |ns| && forall k :: 0 <= k < |xs| ==> xs[k] == f(ns[k])
  {
    ghost var ns := Span(start, end);
    xs := [];
    var i: int := start;
    while i <= end
      invariant start <= i && (start <= end ==> i <= end + 1)
      invariant |xs| == i - start <= |ns|
      invariant forall k :: 0 <= k < |xs| ==> xs[k] == f(ns[k])
      decreases end - i
    {
      assert ns[|xs|] == i;
      xs := xs + [f(i)];
      i := i + 1;
    }
  }

  /** The text of a range with a given base and prefix length, as the scanner's defaults are written. */
  lemma RangeTextOf(num: Uint32, prefix: nat)
    requires prefix <= 32
    ensures var text := NumberToIp(num) + "/" + DecimalString(prefix);
      IsRangeText(text) && BaseOf(text) == num && PrefixOf(text) == prefix
  {
    var ip, d := NumberToIp(num), DecimalString(prefix);
    NumberToIpAvoids(num, '/');
    DigitsAvoid(d, '/');
    SplitPair(ip, d, '/');
    NumberRoundTrip(num);
    ParseDecimalString(prefix);
  }

  // ---------------------------------------------------------------------
  // The mask arithmetic
  // ---------------------------------------------------------------------

  /** Read as unsigned, the mask has one bits above the host bits and zero bits in them. */
  lemma MaskUnsigned(prefix: nat)
    requires prefix <= 32
    ensures ToUint32(Mask(prefix)) == HighOnes(32, HostBits(prefix))
    ensures ToUint32(JsNot(Mask(prefix))) == Pow2(HostBits(prefix)) - 1
  {
    var h := HostBits(prefix);
    Pow2Of32();
    Pow2Monotone(h, 32);
    DivModUnique(Pow2(h) - 1, TWO32, 0, Pow2(h) - 1);
  }

  /** The first address is the base with its host bits cleared: the network address. */
  lemma BlockStartValue(base: Uint32, prefix: nat)
    requires prefix <= 32
    ensures BlockStart(base, prefix) == base - base % Pow2(HostBits(prefix))
  {
    MaskUnsigned(prefix);
    JsAndUnsigned(base, Mask(prefix));
    DivModUnique(base, TWO32, 0, base);
    Pow2Of32();
    BitAndHighMask(base, 32, HostBits(prefix));
  }

  /** The last address is the first with all host bits set: the broadcast address. */
  lemma BlockEndValue(start: Uint32, prefix: nat)
    requires prefix <= 32
    requires start % Pow2(HostBits(prefix)) == 0
    ensures BlockEnd(start, prefix) == start + Pow2(HostBits(prefix)) - 1
  {
    MaskUnsigned(prefix);
    JsOrUnsigned(start, JsNot(Mask(prefix)));
    DivModUnique(start, TWO32, 0, start);
    Pow2Of32();
    BitOrLowMask(start, 32, HostBits(prefix));
  }

  /** Rounding down to a multiple of p leaves the quotient alone and clears the remainder. */
  lemma RoundDown(a: int, p: int)
    requires p > 0
    ensures (a - a % p) % p == 0 && (a - a % p) / p == a / p
  {
    DivModUnique(a - a % p, p, a / p, 0);
  }

  /** The values from a multiple of p up to p - 1 above it share the quotient by p. */
  lemma WithinBlock(net: int, p: int, i: int)
    requires p > 0 && net % p == 0 && 0 <= i < p
    ensures (net + i) / p == net / p && (net + i) % p == i
  {
    DivModUnique(net + i, p, net / p, i);
  }

  // ---------------------------------------------------------------------
  // Properties of the expansion
  // ---------------------------------------------------------------------

  /**
   The expansion of a prefix whose block size p is 2^(32 - prefix) is the
   span of p numbers from the network address, the base with its host bits
   cleared, to the broadcast address, the network address with every host
   bit set.
   */
  lemma BlockShape(base: Uint32, prefix: nat, p: nat)
    requires prefix <= 32 && p == Pow2(HostBits(prefix))
    ensures var net := base - base % p;
      && 0 <= net && net + p - 1 < TWO32 && net % p == 0 && net / p == base / p
      && BlockNumbers(base, prefix) == Span(net, net + p - 1)
  {
    var start := BlockStart(base, prefix);
    BlockStartValue(base, prefix);
    assert start == base - base % p;
    RoundDown(base, p);
    assert start % p == 0;
    BlockEndValue(start, prefix);
    assert BlockNumbers(base, prefix) == Span(start, BlockEnd(start, prefix));
  }

  /**
   The span of p numbers from `base` rounded down to a multiple of p: all
   share the quotient of `base` by p, the remainders run from 0 to p - 1,
   and the last has every one of the low bits set.
   */
  lemma AlignedSpan(base: Uint32, p: nat)
    requires p > 0 && base - base % p + p - 1 < TWO32
    ensures var net := base - base % p;
      0 <= net && var ns := Span(net, net + p - 1);
      && |ns| == p && ns[0] == net
      && ns[|ns| - 1] % p == p - 1
      && (forall i :: 0 <= i < |ns| ==> ns[i] / p == base / p && ns[i] % p == i)
  {
    var net := base - base % p;
    RoundDown(base, p);
    var ns := Span(net, net + p - 1);
    forall i | 0 <= i < |ns|
      ensures ns[i] / p == base / p && ns[i] % p == i
    {
      WithinBlock(net, p, i);
    }
  }

  /** Two numbers with the same quotient by p round down to the same multiple of p. */
  lemma SameQuotient(a: int, b: int, p: int)
    requires p > 0 && a / p == b / p
    ensures a - a % p == b - b % p
  {
    assert a - a % p == p * (a / p);
    assert b - b % p == p * (b / p);
  }

  /** Two numbers with the same quotient by the block size mask to the same network address. */
  lemma MaskedAlike(a: Uint32, base: Uint32, prefix: nat, p: nat)
    requires prefix <= 32 && p == Pow2(HostBits(prefix)) && a / p == base / p
    ensures ToUint32(JsAnd(a, Mask(prefix))) == BlockStart(base, prefix)
  {
    BlockStartValue(a, prefix);
    BlockStartValue(base, prefix);
    SameQuotient(a, base, p);
  }

  /** In the scanner's own terms: every number of the block, masked, gives the block's start. */
  lemma BlockSharesNetwork(base: Uint32, prefix: nat)
    requires prefix <= 32
    ensures var ns := BlockNumbers(base, prefix);
      forall i :: 0 <= i < |ns| ==> ToUint32(JsAnd(ns[i], Mask(prefix))) == BlockStart(base, prefix)
  {
    var p := Pow2(HostBits(prefix));
    var net := base - base % p;
    BlockShape(base, prefix, p);
    AlignedSpan(base, p);
    var ns := Span(net, net + p - 1);
    forall i | 0 <= i < |ns|
      ensures ToUint32(JsAnd(ns[i], Mask(prefix))) == BlockStart(base, prefix)
    {
      MaskedAlike(ns[i], base, prefix, p);
    }
  }

  /** The numbers of a block ascend strictly, so no address is listed twice. */
  lemma BlockNumbersAscending(base: Uint32, prefix: nat)
    requires prefix <= 32
    ensures forall i, j :: 0 <= i < j < |BlockNumbers(base, prefix)| ==>
      BlockNumbers(base, prefix)[i] < BlockNumbers(base, prefix)[j]
  {
    BlockShape(base, prefix, Pow2(HostBits(prefix)));
  }

  /**
   `parseCIDR` lists 2^(32 - prefix) canonical dotted quads whose numbers are
   the block's numbers, in the same order.
   */
  lemma ParseCidrSpec(cidr: string)
    requires IsRangeText(cidr)
    ensures var r, ns := ParseCidr(cidr), BlockNumbers(BaseOf(cidr), PrefixOf(cidr));
      && |r| == |ns| == Pow2(HostBits(PrefixOf(cidr)))
      && forall i :: 0 <= i < |r| ==> IsDottedQuad(r[i]) && IsAddressText(r[i]) && IpToNumber(r[i]) == ns[i]
  {
    var r, ns := ParseCidr(cidr), BlockNumbers(BaseOf(cidr), PrefixOf(cidr));
    BlockShape(BaseOf(cidr), PrefixOf(cidr), Pow2(HostBits(PrefixOf(cidr))));
    forall i | 0 <= i < |r|
      ensures IsDottedQuad(r[i]) && IsAddressText(r[i]) && IpToNumber(r[i]) == ns[i]
    {
      NumberToIpIsDottedQuad(ns[i]);
      NumberRoundTrip(ns[i]);
    }
  }

  /** No address text appears twice in one expansion. */
  lemma ParseCidrDistinct(cidr: string)
    requires IsRangeText(cidr)
    ensures forall i, j :: 0 <= i < j < |ParseCidr(cidr)| ==> ParseCidr(cidr)[i] != ParseCidr(cidr)[j]
  {
    var r, ns := ParseCidr(cidr), BlockNumbers(BaseOf(cidr), PrefixOf(cidr));
    BlockNumbersAscending(BaseOf(cidr), PrefixOf(cidr));
    forall i, j | 0 <= i < j < |r|
      ensures r[i] != r[j]
    {
      if r[i] == r[j] {
        NumberToIpInjective(ns[i], ns[j]);
      }
    }
  }

  /** A `/32` range expands to its own address alone. */
  lemma SingleAddress(cidr: string)
    requires IsRangeText(cidr) && PrefixOf(cidr) == 32
    ensures ParseCidr(cidr) == [NumberToIp(BaseOf(cidr))]
    ensures IsDottedQuad(Split(cidr, '/')[0]) ==> ParseCidr(cidr) == [Split(cidr, '/')[0]]
  {
    var n := BaseOf(cidr);
    HostlessBlock(n);
    var r := ParseCidr(cidr);
    assert |r| == 1 && r[0] == NumberToIp(n);
    var base := Split(cidr, '/')[0];
    if IsDottedQuad(base) {
      TextRoundTrip(base);
    }
  }

  /** With no host bits the block is the base alone. */
  lemma HostlessBlock(n: Uint32)
    ensures BlockNumbers(n, 32) == [n]
  {
    assert Pow2(HostBits(32)) == 1;
    BlockShape(n, 32, 1);
    assert n % 1 == 0;
  }
}
