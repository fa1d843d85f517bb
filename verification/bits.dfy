/**
 JavaScript's 32-bit integer operators, stated on unbounded integers.

 JavaScript numbers are doubles; the bitwise operators `&`, `|` and `~`
 first convert their operands with ToInt32 and yield a signed 32-bit
 result, and `x >>> 0` converts with ToUint32. Every value that reaches
 these operators in the scanner is an integer well inside the exact range
 of a double, so the conversions are modelled exactly with `%` on `int`.
 The two-operand bitwise operators are defined bit by bit, lowest bit first.
 */
module Bits {

  const TWO31: int := 0x8000_0000
  const TWO32: int := 0x1_0000_0000

  /** The width of the operands of the bitwise operators. */
  const WORD_BITS: nat := 32

  /** An unsigned 32-bit value, the range of `x >>> 0`. */
  type Uint32 = x: int | 0 <= x < TWO32

  function Pow2(k: nat): (r: nat)
    ensures r >= 1
  {
    if k == 0 then 1 else 2 * Pow2(k - 1)
  }

  /** ECMAScript ToUint32 on an integral number: the value modulo 2^32. */
  function ToUint32(x: int): (r: Uint32)
    ensures (x - r) % TWO32 == 0
  {
    x % TWO32
  }

  /** ECMAScript ToInt32 on an integral number: the value modulo 2^32, read as two's complement. */
  function ToInt32(x: int): (r: int)
    ensures -TWO31 <= r < TWO31
    ensures (x - r) % TWO32 == 0
    ensures -TWO31 <= x < TWO31 ==> r == x
  {
    var m := x % TWO32;
    if m >= TWO31 then m - TWO32 else m
  }

  /** `~x`: the bitwise complement of ToInt32(x), which is -ToInt32(x) - 1. */
  function JsNot(x: int): (r: int)
    ensures -TWO31 <= r < TWO31
    ensures ToUint32(r) == TWO32 - 1 - ToUint32(x)
  {
    -ToInt32(x) - 1
  }

  /** Bitwise and of the low `w` bits of `a` and `b`. */
  function BitAnd(a: nat, b: nat, w: nat): nat
    decreases w
  {
    if w == 0 then 0
    else 2 * BitAnd(a / 2, b / 2, w - 1) + (if a % 2 == 1 && b % 2 == 1 then 1 else 0)
  }

  /** Bitwise or of the low `w` bits of `a` and `b`. */
  function BitOr(a: nat, b: nat, w: nat): nat
    decreases w
  {
    if w == 0 then 0
    else 2 * BitOr(a / 2, b / 2, w - 1) + (if a % 2 == 1 || b % 2 == 1 then 1 else 0)
  }

  /** `a & b`: both operands through ToInt32, the 32-bit result read as signed. */
  function JsAnd(a: int, b: int): int {
    ToInt32(BitAnd(ToUint32(a), ToUint32(b), WORD_BITS))
  }

  /** `a | b`: both operands through ToInt32, the 32-bit result read as signed. */
  function JsOr(a: int, b: int): int {
    ToInt32(BitOr(ToUint32(a), ToUint32(b), WORD_BITS))
  }

  /** `x << 8`: ToInt32(x) shifted left by 8 bits, the 32-bit result read as signed. */
  function JsShiftLeft8(x: int): int {
    ToInt32(ToInt32(x) * 256)
  }

  /** `x >>> k` for a shift count below 32: ToUint32(x) shifted right, zeros shifted in. */
  function JsUnsignedShiftRight(x: int, k: nat): int
    requires k < 32
  {
    ToUint32(x) / Pow2(k)
  }

  // ---------------------------------------------------------------------
  // Arithmetic facts about division by powers of two
  // ---------------------------------------------------------------------

  lemma MulMonotone(d: int, x: int, y: int)
    requires d >= 0 && x <= y
    ensures d * x <= d * y
  {
    assert d * y - d * x == d * (y - x);
  }

  /** Euclidean division is unique. */
  lemma DivModUnique(a: int, d: int, q: int, r: int)
    requires d > 0 && 0 <= r < d && a == d * q + r
    ensures a / d == q && a % d == r
  {
    var q', r' := a / d, a % d;
    assert a == d * q' + r' && 0 <= r' < d;
    if q > q' {
      MulMonotone(d, q' + 1, q);
      assert false;
    } else if q < q' {
      MulMonotone(d, q + 1, q');
      assert false;
    }
  }

  /** The low `k` bits of `a` are its lowest bit and the low `k - 1` bits of `a / 2`. */
  lemma ModPow2Step(a: int, k: nat)
    requires k > 0
    ensures a % Pow2(k) == 2 * ((a / 2) % Pow2(k - 1)) + a % 2
    ensures a / Pow2(k) == (a / 2) / Pow2(k - 1)
  {
    var p := Pow2(k - 1);
    var q, r := a / 2, a % 2;
    var q1, r1 := q / p, q % p;
    assert q == p * q1 + r1;
    assert a == (2 * p) * q1 + (2 * r1 + r);
    DivModUnique(a, 2 * p, q1, 2 * r1 + r);
  }

  lemma Pow2Monotone(i: nat, j: nat)
    requires i <= j
    ensures Pow2(i) <= Pow2(j)
    decreases j
  {
    if i < j {
      Pow2Monotone(i, j - 1);
    }
  }

  // ---------------------------------------------------------------------
  // The two masks of a CIDR prefix
  // ---------------------------------------------------------------------

  /** The `w`-bit value whose low `h` bits are zero and whose other bits are one. */
  function HighOnes(w: nat, h: nat): nat
    requires h <= w
  {
    Pow2Monotone(h, w);
    Pow2(w) - Pow2(h)
  }

  lemma {:induction false} BitAndAllOnes(a: nat, w: nat)
    requires a < Pow2(w)
    ensures BitAnd(a, Pow2(w) - 1, w) == a
    decreases w
  {
    if w > 0 {
      BitAndAllOnes(a / 2, w - 1);
    }
  }

  /**
   Anding with `h` low zero bits under `w - h` high one bits clears the low
   `h` bits: the result is `a` rounded down to a multiple of 2^h.
   */
  lemma {:induction false} BitAndHighMask(a: nat, w: nat, h: nat)
    requires h <= w && a < Pow2(w)
    ensures BitAnd(a, HighOnes(w, h), w) == a - a % Pow2(h)
    decreases w
  {
    if h == 0 {
      BitAndAllOnes(a, w);
    } else {
      var m := HighOnes(w, h);
      assert m % 2 == 0 && m / 2 == HighOnes(w - 1, h - 1);
      BitAndHighMask(a / 2, w - 1, h - 1);
      var rest := BitAnd(a / 2, m / 2, w - 1);
      assert BitAnd(a, m, w) == 2 * rest;
      ModPow2Step(a, h);
    }
  }

  lemma {:induction false} BitOrZero(a: nat, w: nat)
    requires a < Pow2(w)
    ensures BitOr(a, 0, w) == a
    decreases w
  {
    if w > 0 {
      BitOrZero(a / 2, w - 1);
    }
  }

  /**
   Oring `h` low one bits into a value whose low `h` bits are clear adds
   2^h - 1: the result is the last value sharing the high bits.
   */
  lemma {:induction false} BitOrLowMask(s: nat, w: nat, h: nat)
    requires h <= w && s < Pow2(w) && s % Pow2(h) == 0
    ensures BitOr(s, Pow2(h) - 1, w) == s + Pow2(h) - 1
    decreases w
  {
    if h == 0 {
      BitOrZero(s, w);
    } else {
      ModPow2Step(s, h);
      assert s % 2 == 0 && (s / 2) % Pow2(h - 1) == 0;
      BitOrLowMask(s / 2, w - 1, h - 1);
      var m := Pow2(h) - 1;
      assert m % 2 == 1 && m / 2 == Pow2(h - 1) - 1;
      assert BitOr(s, m, w) == 2 * BitOr(s / 2, m / 2, w - 1) + 1;
    }
  }

  /** A value already in the unsigned range survives ToInt32 followed by ToUint32. */
  lemma SmallUint32(x: int)
    requires 0 <= x < TWO32
    ensures ToUint32(ToInt32(x)) == x
  {
  }

  /** `(a & b) >>> 0` is the unsigned bitwise and of the unsigned operands. */
  lemma JsAndUnsigned(a: int, b: int)
    ensures ToUint32(JsAnd(a, b)) == BitAnd(ToUint32(a), ToUint32(b), WORD_BITS)
  {
    var x := BitAnd(ToUint32(a), ToUint32(b), WORD_BITS);
    BitAndBound(ToUint32(a), ToUint32(b), WORD_BITS);
    Pow2Of32();
    SmallUint32(x);
  }
  /** `(a | b) >>> 0` is the unsigned bitwise or of the unsigned operands. */
  lemma JsOrUnsigned(a: int, b: int)
    ensures ToUint32(JsOr(a, b)) == BitOr(ToUint32(a), ToUint32(b), WORD_BITS)
  {
    var x := BitOr(ToUint32(a), ToUint32(b), WORD_BITS);
    BitOrBound(ToUint32(a), ToUint32(b), WORD_BITS);
    Pow2Of32();
    SmallUint32(x);
  }
  lemma {:induction false} BitAndBound(a: nat, b: nat, w: nat)
    ensures BitAnd(a, b, w) < Pow2(w)
    decreases w
  {
    if w > 0 {
      BitAndBound(a / 2, b / 2, w - 1);
    }
  }

  lemma {:induction false} BitOrBound(a: nat, b: nat, w: nat)
    ensures BitOr(a, b, w) < Pow2(w)
    decreases w
  {
    if w > 0 {
      BitOrBound(a / 2, b / 2, w - 1);
    }
  }

  lemma Pow2Of32()
    ensures Pow2(8) == 256 && Pow2(16) == 0x1_0000 && Pow2(24) == 0x100_0000
    ensures Pow2(32) == TWO32
  {
    assert Pow2(8) == 256;
    assert Pow2(16) == 0x1_0000;
    assert Pow2(24) == 0x100_0000;
  }

  /** Anding with `h` low one bits keeps the value modulo 2^h. */
  lemma {:induction false} BitAndLowOnes(a: nat, w: nat, h: nat)
    requires h <= w
    ensures BitAnd(a, Pow2(h) - 1, w) == a % Pow2(h)
    decreases w
  {
    if h == 0 {
      BitAndZero(a, w);
    } else {
      var m := Pow2(h) - 1;
      assert m % 2 == 1 && m / 2 == Pow2(h - 1) - 1;
      BitAndLowOnes(a / 2, w - 1, h - 1);
      ModPow2Step(a, h);
    }
  }

  lemma {:induction false} BitAndZero(a: nat, w: nat)
    ensures BitAnd(a, 0, w) == 0
    decreases w
  {
    if w > 0 {
      BitAndZero(a / 2, w - 1);
    }
  }

  /** `x >>> k` on an unsigned 32-bit value is plain division by 2^k. */
  lemma UnsignedShiftRightValue(x: Uint32, k: nat)
    requires k < 32
    ensures 0 <= JsUnsignedShiftRight(x, k) == x / Pow2(k) <= x
  {
    DivModUnique(x, TWO32, 0, x);
    var p := Pow2(k);
    var q := x / p;
    assert x == p * q + x % p;
    if q < 0 {
      MulMonotone(p, q, -1);
    }
    if q > x {
      MulMonotone(q, 1, p);
    }
  }

  /** `x & 0xff` is the low byte of ToUint32(x). */
  lemma JsAndLowByte(x: int)
    ensures JsAnd(x, 0xff) == ToUint32(x) % 256
  {
    Pow2Of32();
    BitAndLowOnes(ToUint32(x), 32, 8);
  }
}
