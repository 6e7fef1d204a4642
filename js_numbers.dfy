/**
 * The JavaScript Number operations that the decoder uses, on integral values:
 * ToUint32/ToInt32, the 32-bit operators `&`, `<<` and `>>`, conversion of a
 * Number to its decimal string and the rendering of an absent value.
 * Every Number handled here is an integer whose magnitude is far below 2^53,
 * so each is modelled by an unbounded `int` and the 32-bit conversions are
 * written out.
 */
module JsNumbers {
  import opened Wrappers

  const TWO_31: int := 0x8000_0000
  const TWO_32: int := 0x1_0000_0000

  function Pow2(n: nat): (r: nat)
    ensures r >= 1
  {
    if n == 0 then 1 else 2 * Pow2(n - 1)
  }

  lemma {:induction false} Pow2Add(a: nat, b: nat)
    ensures Pow2(a + b) == Pow2(a) * Pow2(b)
  {
    if b > 0 {
      Pow2Add(a, b - 1);
      assert Pow2(a + b) == 2 * Pow2(a + b - 1);
    }
  }

  lemma {:induction false} Pow2Monotone(a: nat, b: nat)
    requires a <= b
    ensures Pow2(a) <= Pow2(b)
  {
    if a < b {
      Pow2Monotone(a, b - 1);
    }
  }

  lemma Pow2AtMost31(k: nat)
    requires k <= 31
    ensures Pow2(k) <= TWO_31
  {
    Pow2Monotone(k, 31);
    Pow2ThirtyTwo();
    assert Pow2(32) == 2 * Pow2(31);
  }

  lemma Pow2Eight()
    ensures Pow2(8) == 256
  {
    assert Pow2(1) == 2;
    Pow2Add(1, 1);
    Pow2Add(2, 2);
    Pow2Add(4, 4);
  }

  lemma Pow2ThirtyTwo()
    ensures Pow2(32) == TWO_32
  {
    Pow2Eight();
    Pow2Add(8, 8);
    Pow2Add(16, 16);
  }

  /** The small powers of two that the decoder's constants are made of. */
  lemma Pow2Small()
    ensures Pow2(2) == 4 && Pow2(3) == 8 && Pow2(5) == 32 && Pow2(10) == 1024
  {
    assert Pow2(1) == 2;
    Pow2Add(1, 1);
    Pow2Add(2, 1);
    Pow2Add(2, 3);
    Pow2Add(5, 5);
  }

  /** The large powers of two that the decoder's constants are made of. */
  lemma Pow2Large()
    ensures Pow2(20) == 0x10_0000 && Pow2(24) == 0x100_0000
    ensures Pow2(32) == TWO_32 && Pow2(48) == 0x1_0000_0000_0000
  {
    Pow2Small();
    Pow2Eight();
    Pow2Add(10, 10);
    Pow2Add(8, 8);
    Pow2Add(16, 8);
    Pow2Add(16, 16);
    Pow2Add(32, 16);
  }

  // ---------------------------------------------------------------------
  // Integer division facts used by the proofs below.

  /** The quotient and remainder of Euclidean division are unique. */
  lemma DivModUnique(a: int, d: int, q: int, rr: int)
    requires d > 0 && 0 <= rr < d && a == d * q + rr
    ensures a / d == q && a % d == rr
  {
    var q0, r0 := a / d, a % d;
    assert a == d * q0 + r0;
    if q0 < q {
      assert d * (q - q0) >= d by { MulAtLeast(d, q - q0); }
      assert false;
    } else if q0 > q {
      assert d * (q0 - q) >= d by { MulAtLeast(d, q0 - q); }
      assert false;
    }
  }

  /** n = x*p + y with 0 <= y < p leaves y modulo p. */
  lemma ModOfAffine(n: int, x: int, p: int, y: int)
    requires p > 0 && 0 <= y < p && n == x * p + y
    ensures n % p == y
  {
    MulComm(x, p);
    DivModUnique(n, p, x, y);
  }

  lemma MulComm(a: int, b: int)
    ensures a * b == b * a
  {
  }

  lemma MulLeftCommute(a: int, b: int, c: int)
    ensures a * (b * c) == b * (a * c)
  {
  }

  lemma MulAtLeast(d: int, k: int)
    requires d > 0 && k >= 1
    ensures d * k >= d
  {
  }

  /** One binary digit of `a` and the rest of `a mod 2m`. */
  lemma ModHalfStep(a: nat, m: nat)
    requires m >= 1
    ensures a % (2 * m) == 2 * ((a / 2) % m) + a % 2
  {
    var h, b := a / 2, a % 2;
    var t, s := h / m, h % m;
    assert a == (2 * m) * t + (2 * s + b);
    DivModUnique(a, 2 * m, t, 2 * s + b);
  }

  /** Reducing modulo a multiple of p first does not change the residue modulo p. */
  lemma ModOfMultiple(x: int, p: int, c: int)
    requires p > 0 && c > 0
    ensures (x % (p * c)) % p == x % p
  {
    var pc := p * c;
    var q, r := x / pc, x % pc;
    var q2, r2 := r / p, r % p;
    assert x == pc * q + r;
    assert r == p * q2 + r2;
    assert pc * q == p * (c * q);
    assert x == p * (c * q + q2) + r2;
    DivModUnique(x, p, c * q + q2, r2);
  }

  /** Reducing modulo 2^32 first does not change the low k bits. */
  lemma ModOfMod32(x: int, k: nat)
    requires k <= 32
    ensures (x % TWO_32) % Pow2(k) == x % Pow2(k)
  {
    Pow2ThirtyTwo();
    Pow2Add(k, 32 - k);
    ModOfMultiple(x, Pow2(k), Pow2(32 - k));
  }

  // ---------------------------------------------------------------------
  // ToUint32 and ToInt32 (ECMA-262, section 7.1.7 and 7.1.6) on integers.

  /** ToUint32: the integer modulo 2^32. */
  function ToUint32(x: int): (r: nat)
    ensures r < TWO_32
    ensures (x - r) % TWO_32 == 0
    ensures 0 <= x < TWO_32 ==> r == x
  {
    x % TWO_32
  }

  /** ToInt32: the integer modulo 2^32, read as a two's-complement value. */
  function ToInt32(x: int): (r: int)
    ensures -TWO_31 <= r < TWO_31
    ensures (x - r) % TWO_32 == 0
    ensures -TWO_31 <= x < TWO_31 ==> r == x
  {
    var u := ToUint32(x);
    if u >= TWO_31 then u - TWO_32 else u
  }

  // ---------------------------------------------------------------------
  // The bitwise AND `x & y` (ECMA-262, section 13.12).

  /** The AND of the low n binary digits of a and b. */
  function AndBits(a: nat, b: nat, n: nat): (r: nat)
    ensures r < Pow2(n)
  {
    if n == 0 then 0
    else 2 * AndBits(a / 2, b / 2, n - 1) + (if a % 2 == 1 && b % 2 == 1 then 1 else 0)
  }

  lemma {:induction false} AndBitsZeroMask(a: nat, n: nat)
    ensures AndBits(a, 0, n) == 0
  {
    if n > 0 {
      AndBitsZeroMask(a / 2, n - 1);
    }
  }

  /** The k low binary digits of a, as a number. */
  function LowBits(a: nat, k: nat): (r: nat)
    ensures r < Pow2(k)
  {
    if k == 0 then 0 else 2 * LowBits(a / 2, k - 1) + a % 2
  }

  /** The k low binary digits of a are its residue modulo 2^k. */
  lemma {:induction false} LowBitsIsMod(a: nat, k: nat)
    ensures LowBits(a, k) == a % Pow2(k)
  {
    if k > 0 {
      var m := Pow2(k - 1);
      LowBitsIsMod(a / 2, k - 1);
      ModHalfStep(a, m);
    }
  }

  /** AND with the mask 2^k - 1 keeps exactly the k low bits. */
  lemma {:induction false} AndBitsLowMask(a: nat, k: nat, n: nat)
    requires k <= n
    ensures AndBits(a, Pow2(k) - 1, n) == a % Pow2(k)
  {
    AndBitsLowBits(a, k, n);
    LowBitsIsMod(a, k);
  }

  lemma {:induction false} AndBitsLowBits(a: nat, k: nat, n: nat)
    requires k <= n
    ensures AndBits(a, Pow2(k) - 1, n) == LowBits(a, k)
  {
    if k == 0 {
      AndBitsZeroMask(a, n);
    } else {
      MaskHalf(k);
      AndBitsOddMask(a, Pow2(k) - 1, n);
      AndBitsLowBits(a / 2, k - 1, n - 1);
    }
  }

  /** The mask 2^k - 1, for k > 0, is odd and halves to 2^(k-1) - 1. */
  lemma MaskHalf(k: nat)
    requires k > 0
    ensures (Pow2(k) - 1) / 2 == Pow2(k - 1) - 1 && (Pow2(k) - 1) % 2 == 1
  {
  }

  /** With an odd mask the low bit of the AND is the low bit of a. */
  lemma AndBitsOddMask(a: nat, mask: nat, n: nat)
    requires n > 0 && mask % 2 == 1
    ensures AndBits(a, mask, n) == 2 * AndBits(a / 2, mask / 2, n - 1) + a % 2
  {
  }

  /** The AND never exceeds either operand. */
  lemma {:induction false} AndBitsAtMost(a: nat, b: nat, n: nat)
    ensures AndBits(a, b, n) <= b
  {
    if n > 0 {
      AndBitsAtMost(a / 2, b / 2, n - 1);
    }
  }

  /** `x & y`: both operands through ToInt32, the AND of their 32-bit patterns. */
  function BitAnd(x: int, y: int): (r: int)
    ensures -TWO_31 <= r < TWO_31
    ensures 0 <= ToInt32(y) ==> 0 <= r <= ToInt32(y)
  {
    AndBitsAtMost(ToUint32(x), ToUint32(y), 32);
    ToInt32(AndBits(ToUint32(x), ToUint32(y), 32))
  }

  lemma AndBitsOfUint32(x: int, k: nat)
    requires k <= 32
    ensures AndBits(ToUint32(x), Pow2(k) - 1, 32) == x % Pow2(k)
  {
    AndBitsLowMask(ToUint32(x), k, 32);
    ModOfMod32(x, k);
  }

  /** A mask that is a non-negative 31-bit value goes through ToUint32 unchanged. */
  lemma BitAndSmallMask(x: int, m: int)
    requires 0 <= m < TWO_31
    ensures BitAnd(x, m) == ToInt32(AndBits(ToUint32(x), m, 32))
  {
  }

  /** With a mask 2^k - 1 of at most 31 bits, `x & mask` is the residue of x modulo 2^k. */
  lemma BitAndLowMask(x: int, k: nat)
    requires k <= 31
    ensures BitAnd(x, Pow2(k) - 1) == x % Pow2(k)
    ensures 0 <= BitAnd(x, Pow2(k) - 1) < Pow2(k)
  {
    var p := Pow2(k);
    Pow2AtMost31(k);
    BitAndSmallMask(x, p - 1);
    AndBitsOfUint32(x, k);
    var v := x % p;
    assert 0 <= v < TWO_31;
  }

  /** A mask whose low 32 bits are all ones (ToInt32 of it is -1) leaves ToInt32(x). */
  lemma BitAndAllOnes(x: int, y: int)
    requires ToUint32(y) == TWO_32 - 1
    ensures BitAnd(x, y) == ToInt32(x)
  {
    Pow2ThirtyTwo();
    AndBitsLowMask(ToUint32(x), 32, 32);
    assert ToUint32(x) % TWO_32 == ToUint32(x);
  }

  // ---------------------------------------------------------------------
  // The shift operators (ECMA-262, section 13.9): the count is taken mod 32.

  /** `x << n`: ToInt32(x) times 2^(n mod 32), wrapped to 32 bits. */
  function ShiftLeft(x: int, n: int): (r: int)
    ensures -TWO_31 <= r < TWO_31
    ensures (ToInt32(x) * Pow2(ToUint32(n) % 32) - r) % TWO_32 == 0
  {
    ToInt32(ToInt32(x) * Pow2(ToUint32(n) % 32))
  }

  /** `x >> n`: ToInt32(x) divided by 2^(n mod 32), rounding towards minus infinity. */
  function ShiftRight(x: int, n: int): (r: int)
    ensures -TWO_31 <= r < TWO_31
    ensures 0 <= ToInt32(x) ==> 0 <= r <= ToInt32(x)
    ensures ToInt32(x) < 0 ==> ToInt32(x) <= r < 0
    ensures r * Pow2(ToUint32(n) % 32) <= ToInt32(x) < (r + 1) * Pow2(ToUint32(n) % 32)
  {
    var a, p := ToInt32(x), Pow2(ToUint32(n) % 32);
    DivBounds(a, p);
    DivFloor(a, p);
    a / p
  }

  /** Shifting a small non-negative value left multiplies it by 2^(n mod 32). */
  lemma ShiftLeftSmall(x: int, n: nat)
    requires n < TWO_32
    requires 0 <= x && x * Pow2(n % 32) < TWO_31
    ensures ShiftLeft(x, n) == x * Pow2(n % 32)
  {
    var p := Pow2(n % 32);
    assert x <= x * p by { MulAtLeastIfPos(p, x); MulComm(p, x); }
    assert ToInt32(x) == x;
    assert ToUint32(n) % 32 == n % 32;
  }

  /** Shifting a non-negative 31-bit value right divides it by 2^(n mod 32). */
  lemma ShiftRightNonNegative(x: int, n: nat)
    requires n < TWO_32
    requires 0 <= x < TWO_31
    ensures ShiftRight(x, n) == x / Pow2(n % 32)
    ensures 0 <= ShiftRight(x, n) <= x
  {
    assert ToInt32(x) == x;
    assert ToUint32(n) % 32 == n % 32;
    DivBounds(x, Pow2(n % 32));
  }

  /** Floor division: the quotient times the divisor is at most a, and one more step passes it. */
  lemma DivFloor(a: int, p: int)
    requires p >= 1
    ensures (a / p) * p <= a < (a / p + 1) * p
  {
    var q, r := a / p, a % p;
    assert a == p * q + r;
    assert (q + 1) * p == q * p + p;
  }

  /** Floor division by a positive number moves towards zero without crossing it. */
  lemma DivBounds(a: int, p: int)
    requires p >= 1
    ensures 0 <= a ==> 0 <= a / p <= a
    ensures a < 0 ==> a <= a / p < 0
  {
    var q, r := a / p, a % p;
    assert a == p * q + r;
    MulBounds(p, q);
  }

  lemma MulBounds(p: int, q: int)
    requires p >= 1
    ensures q >= 0 ==> p * q >= q
    ensures q < 0 ==> p * q <= q - (p - 1)
  {
    if q < 0 {
      MulNonPositive(p - 1, q + 1);
      assert (p - 1) * (q + 1) == p * q - q + p - 1;
    } else {
      MulNonNegative(p - 1, q);
      assert (p - 1) * q == p * q - q;
    }
  }

  lemma MulNonPositive(a: int, b: int)
    requires a >= 0 && b <= 0
    ensures a * b <= 0
  {
  }

  lemma MulNonNegative(a: int, b: int)
    requires a >= 0 && b >= 0
    ensures a * b >= 0
  {
  }

  lemma MulAtLeastIfPos(p: int, q: int)
    requires p >= 1 && q >= 0
    ensures p * q >= q
  {
  }

  // ---------------------------------------------------------------------
  // Number to decimal string (ECMA-262, section 6.1.6.1.20) for integers
  // of magnitude below 10^21, which never take the exponent form.

  const DECIMAL_LIMIT: int := 1_000_000_000_000_000_000_000

  predicate IsDecimalDigit(c: char) {
    '0' <= c <= '9'
  }

  function DigitChar(d: nat): (c: char)
    requires d < 10
    ensures IsDecimalDigit(c)
  {
    ('0' as int + d) as char
  }

  /** The shortest decimal spelling of a natural number. */
  function NatToString(n: nat): (r: string)
    ensures |r| >= 1
    ensures forall i :: 0 <= i < |r| ==> IsDecimalDigit(r[i])
    ensures r[0] == '0' ==> n == 0
  {
    if n < 10 then [DigitChar(n)] else NatToString(n / 10) + [DigitChar(n % 10)]
  }

  function DigitValue(c: char): (d: nat)
    requires IsDecimalDigit(c)
    ensures d < 10 && DigitChar(d) == c
  {
    c as int - '0' as int
  }

  /** The value of a string of decimal digits. */
  function DecimalValue(s: string): nat
    requires forall i :: 0 <= i < |s| ==> IsDecimalDigit(s[i])
  {
    if |s| == 0 then 0
    else 10 * DecimalValue(s[..|s| - 1]) + DigitValue(s[|s| - 1])
  }

  lemma {:induction false} NatToStringRoundTrip(n: nat)
    ensures DecimalValue(NatToString(n)) == n
  {
    if n >= 10 {
      var s := NatToString(n);
      assert s[..|s| - 1] == NatToString(n / 10);
      NatToStringRoundTrip(n / 10);
    }
  }

  /** A Number that is an integer, rendered as JavaScript's `String(x)` does. */
  function NumberToString(x: int): (r: string)
    requires -DECIMAL_LIMIT < x < DECIMAL_LIMIT
    ensures |r| >= 1 && '.' !in r
    ensures (r[0] == '-') == (x < 0)
    ensures forall i :: 0 < i < |r| ==> IsDecimalDigit(r[i])
    ensures x >= 0 ==> IsDecimalDigit(r[0])
    ensures x >= 0 ==> (r[0] == '0' ==> x == 0)
    ensures x < 0 ==> |r| >= 2 && r[1] != '0'
  {
    if x < 0 then "-" + NatToString(-x) else NatToString(x)
  }

  /** Reading back the decimal string gives the number. */
  lemma NumberToStringRoundTrip(x: int)
    requires -DECIMAL_LIMIT < x < DECIMAL_LIMIT
    ensures var r := NumberToString(x);
      x == if r[0] == '-' then -(DecimalValue(r[1..]) as int) else DecimalValue(r) as int
  {
    if x < 0 {
      NatToStringRoundTrip(-x);
      assert NumberToString(x)[1..] == NatToString(-x);
    } else {
      NatToStringRoundTrip(x);
    }
  }

  /**
   * String concatenation of a possibly-`undefined` integer Number: an absent
   * value becomes the text "undefined", a present one its decimal string.
   */
  function RenderOptional(v: Option<int>): (r: string)
    requires v.Some? ==> -DECIMAL_LIMIT < v.value < DECIMAL_LIMIT
    ensures '.' !in r
    ensures (r == "undefined") == v.None?
    ensures v.Some? ==> r == NumberToString(v.value)
  {
    match v
    case None => "undefined"
    case Some(x) => NumberToString(x)
  }
}
