/** 64-bit division built from a 64-by-32-bit divide instruction. */
module Arithmetic {
  import opened Basics

  const B32 := 0x1_0000_0000
  const B64 := 0x1_0000_0000_0000_0000

  function Pow2(n: nat): (r: nat)
    ensures r > 0
  {
    if n == 0 then 1 else 2 * Pow2(n - 1)
  }

  lemma {:induction false} Pow2Add(m: nat, n: nat)
    ensures Pow2(m + n) == Pow2(m) * Pow2(n)
    decreases n
  {
    if n > 0 {
      Pow2Add(m, n - 1);
      assert Pow2(m + n) == 2 * Pow2(m + (n - 1));
    }
  }

  lemma Pow2Values()
    ensures Pow2(1) == 2 && Pow2(2) == 4 && Pow2(4) == 0x10 && Pow2(8) == 0x100
    ensures Pow2(16) == 0x1_0000 && Pow2(31) == 0x8000_0000 && Pow2(32) == B32
  {
    Pow2Double(1, 2);
    Pow2Double(2, 4);
    Pow2Double(4, 0x10);
    Pow2Double(8, 0x100);
    Pow2Double(16, 0x1_0000);
  }

  lemma Pow2Double(n: nat, p: nat)
    requires Pow2(n) == p
    ensures Pow2(n + n) == p * p && (n > 0 ==> Pow2(n + n) == 2 * Pow2(n + n - 1))
  {
    Pow2Add(n, n);
  }

  lemma MulGap(d: nat, a: int, b: int)
    ensures a < b ==> d * a + d <= d * b
  {
    if a < b {
      MulLe(a + 1, b, d);
    }
  }

  /** The divide instruction. It traps when the quotient does not fit in 32 bits, so that must not happen. */
  method Divl(n: U64, d: U32) returns (q: U32)
    requires d > 0 && n / d < B32
    ensures q == n / d
  {
    q := n / d;
  }

  /** The number of leading zero bits: shifting left by it brings the highest one bit to the top. */
  method Nlz(x: U32) returns (n: nat)
    requires x > 0
    ensures n <= 31
    ensures 0x8000_0000 <= x * Pow2(n) < B32
  {
    hide Pow2;
    Pow2Values();
    n := 0;
    var y: U32 := x;
    assert Pow2(0) == 1 by { Pow2Zero(); }
    if y <= 0x0000_FFFF {
      n, y := n + 16, y * 0x1_0000;
    }
    assert y == x * Pow2(n) && y > 0xFFFF;
    if y <= 0x00FF_FFFF {
      Shifted(x, n, 8);
      n, y := n + 8, y * 0x100;
    }
    assert y == x * Pow2(n) && y > 0xFF_FFFF;
    if y <= 0x0FFF_FFFF {
      Shifted(x, n, 4);
      n, y := n + 4, y * 0x10;
    }
    assert y == x * Pow2(n) && y > 0xFFF_FFFF;
    if y <= 0x3FFF_FFFF {
      Shifted(x, n, 2);
      n, y := n + 2, y * 4;
    }
    assert y == x * Pow2(n) && y > 0x3FFF_FFFF;
    if y <= 0x7FFF_FFFF {
      Shifted(x, n, 1);
      n, y := n + 1, y * 2;
    }
  }

  lemma Pow2Zero()
    ensures Pow2(0) == 1
  {
  }

  lemma Shifted(x: nat, m: nat, n: nat)
    ensures x * Pow2(m + n) == x * Pow2(m) * Pow2(n)
  {
    Pow2Add(m, n);
  }

  lemma QuotientIs(n: nat, d: nat, q: int, r: int)
    requires d > 0 && n == d * q + r && 0 <= r < d
    ensures n / d == q && n % d == r
  {
    var q', r' := n / d, n % d;
    assert n == d * q' + r';
    MulGap(d, q, q');
    MulGap(d, q', q);
  }

  /** Long division in base b: what is left of the high digit is carried into the low one. */
  lemma LongDivision(n1: nat, n0: nat, d: nat, b: nat)
    requires 0 < d && n0 < b
    ensures (b * (n1 % d) + n0) / d < b
    ensures (b * (n1 % d) + n0) / d + b * (n1 / d) == (b * n1 + n0) / d
  {
    Divided(n1, d);
    Divided(b * (n1 % d) + n0, d);
    LongDivisionIs(n1, n0, d, b, n1 / d, n1 % d, (b * (n1 % d) + n0) / d, (b * (n1 % d) + n0) % d);
  }

  lemma LongDivisionIs(n1: nat, n0: nat, d: nat, b: nat, t: nat, r: nat, u: nat, x: nat)
    requires n1 == d * t + r && r < d && n0 < b && b * r + n0 == d * u + x && x < d
    ensures u < b && (b * n1 + n0) / d == u + b * t
  {
    CarryBelow(r, n0, d, b);
    DigitBelow(b * r + n0, d, b, u, x);
    LongDivisionStep(n1, n0, d, b, t, r, u, x);
    QuotientIs(b * n1 + n0, d, b * t + u, x);
  }

  lemma DigitBelow(m: nat, d: nat, b: nat, u: nat, x: nat)
    requires m == d * u + x && m < d * b
    ensures u < b
  {
    if b <= u { MulLe(b, u, d); }
  }

  lemma LongDivisionStep(n1: nat, n0: nat, d: nat, b: nat, t: nat, r: nat, u: nat, x: nat)
    requires n1 == d * t + r && b * r + n0 == d * u + x
    ensures b * n1 + n0 == d * (b * t + u) + x
  {
    assert b * (d * t + r) == b * (d * t) + b * r;
    assert b * (d * t) == d * (b * t);
    assert d * (b * t + u) == d * (b * t) + d * u;
  }

  lemma CarryBelow(r: nat, n0: nat, d: nat, b: nat)
    requires r < d && n0 < b
    ensures b * r + n0 < d * b
  {
    MulGap(b, r, d);
    assert b * d == d * b;
  }

  /** Dividing by the divisor's leading bits alone, w instead of d, gives the quotient or one more. */
  lemma EstimateOffByOne(n: nat, d: nat, w: nat, q: nat, rem: nat, u: nat, rem': nat)
    requires n == d * q + rem && rem < d && n == w * u + rem' && rem' < w && w <= d
    requires (q + 1) * (d - w) <= w
    ensures q <= u <= q + 1
  {
    // q * w <= q * d <= n < (u + 1) * w
    assert q * (d - w) >= 0;
    assert q * (d - w) == d * q - w * q;
    MulGap(w, u, q);
    // (q + 2) * w >= (q + 1) * d > n >= u * w
    assert (q + 1) * (d - w) == (d * q + d) - (w * q + w);
    MulGap(w, q + 1, u);
    assert w * (q + 1) == w * q + w;
  }

  /** The error the dropped bits make is small enough, because the quotient is. */
  lemma ErrorBound(p: nat, r: nat, q: nat, e: nat, w: nat)
    requires p * r == B32 && q + 1 <= 2 * p && e < r && w >= 0x8000_0000 * r && (r == 2 || r >= 4)
    ensures (q + 1) * e <= w
  {
    MulLe(q + 1, 2 * p, e);
    MulLe(e, r - 1, 2 * p);
    assert 2 * p * (r - 1) == 2 * (p * r) - 2 * p;
  }

  lemma MulLe(a: int, b: int, c: nat)
    requires a <= b
    ensures a * c <= b * c && c * a <= c * b
  {
  }

  /** The quotient, for every dividend and every divisor but 0; the divide instruction never traps. */
  method Udiv64(n: U64, d: U64) returns (q: U64)
    requires d > 0
    ensures q == n / d
  {
    if d / B32 == 0 {
      q := DivideBySmall(n, d);
    } else if n < d {
      QuotientIs(n, d, 0, n);
      q := 0;
    } else {
      q := DivideByLarge(n, d);
    }
  }

  /** The case of a divisor that fits in 32 bits. */
  method DivideBySmall(n: U64, d: U32) returns (q: U64)
    requires d > 0
    ensures q == n / d
  {
    var n1: U32 := n / B32;
    var n0: U32 := n % B32;
    LongDivision(n1, n0, d, B32);
    HighPart(n1, n0, d);
    var high: U64 := B32 * (n1 % d) + n0;
    q := Divl(high, d);
    q := q + B32 * (n1 / d);
  }

  lemma HighPart(n1: U32, n0: U32, d: U32)
    requires d > 0
    ensures B32 * (n1 % d) + n0 < B64
  {
  }

  /** The case of a divisor that needs more than 32 bits. */
  method DivideByLarge(n: U64, d: U64) returns (q: U64)
    requires B32 <= d <= n
    ensures q == n / d
  {
    hide Pow2;
    var d1: U32 := d / B32;
    var s := Nlz(d1);
    ShiftPowers(s);
    ShiftedDivisor(d, Pow2(s), 2 * Pow2(31 - s));
    var v: U32 := d * Pow2(s) / B32;
    HalfFits(n, v);
    var estimate := Divl(n / 2, v);
    EstimateCloses(n, d, Pow2(s), Pow2(31 - s), v);
    var u: U64 := estimate / Pow2(31 - s);
    var multiple: U64 := (u - 1) * d;
    var rest: U64 := n - multiple;
    q := if rest < d then u - 1 else u;
  }

  lemma ShiftPowers(s: nat)
    requires s <= 31
    ensures Pow2(s) * (2 * Pow2(31 - s)) == B32 && (Pow2(31 - s) == 1 || Pow2(31 - s) >= 2)
  {
    hide Pow2;
    Pow2Values();
    Pow2Add(s, 31 - s);
    MulTwice(Pow2(s), Pow2(31 - s));
  }

  lemma MulTwice(a: nat, b: nat)
    ensures a * (2 * b) == 2 * (a * b)
  {
  }

  lemma ShiftedDivisor(d: nat, p: nat, r: nat)
    requires p > 0 && p * r == B32 && 0x8000_0000 <= d / B32 * p < B32
    ensures d * p < B64 && 0x8000_0000 <= d * p / B32 < B32
  {
    var d1, low := d / B32, d % B32;
    if r <= d1 { MulLe(r, d1, p); }
    MulLe(d1 + 1, r, p);
    MulLe(d, (d1 + 1) * B32 - 1, p);
    assert ((d1 + 1) * B32 - 1) * p == (d1 + 1) * p * B32 - p;
    MulLe(d1 * B32, d, p);
    assert d1 * B32 * p == d1 * p * B32;
  }

  /** With the divisor's top bit set, half the dividend divided by its upper half fits in 32 bits. */
  lemma HalfFits(n: U64, v: U32)
    requires v >= 0x8000_0000
    ensures (n / 2) / v < B32
  {
    MulLe(0x8000_0000, v, B32);
    MulGap(v, B32 - 1, (n / 2) / v);
  }

  /** Dividing twice is dividing by the product. */
  lemma DivDiv(n: nat, a: nat, b: nat)
    requires a > 0 && b > 0
    ensures a * b > 0 && n / a / b == n / (a * b)
  {
    var x, y := n / a, n / a / b;
    var r, r' := n % a, x % b;
    MulLe(1, a, b);
    DivDivStep(n, a, b, x, y, r, r');
    QuotientIs(n, a * b, y, a * r' + r);
  }

  lemma DivDivStep(n: nat, a: nat, b: nat, x: nat, y: nat, r: nat, r': nat)
    requires n == a * x + r && r < a && x == b * y + r' && r' < b
    ensures n == a * b * y + (a * r' + r) && a * r' + r < a * b
  {
    assert a * (b * y + r') == a * b * y + a * r';
    MulGap(a, r', b);
  }

  lemma HalvesQuotient(n: nat, v: nat, t: nat)
    requires v > 0 && t > 0
    ensures v * (2 * t) > 0 && n / 2 / v / t == n / (v * (2 * t))
  {
    DivDiv(n, 2, v);
    DivDiv(n, 2 * v, t);
    assert 2 * v * t == v * (2 * t);
  }

  /** What the divisor loses when only its leading 32 bits are kept. */
  lemma DroppedBits(d: nat, p: nat, r: nat, v: nat, w: nat)
    requires p > 0 && p * r == B32 && v == d * p / B32 && w == v * r
    ensures 0 <= d - w < r
  {
    var low := d * p % B32;
    assert w * p == v * (p * r);
    assert (d - w) * p == d * p - w * p == low;
    MulGap(p, d - w, 0);
    MulGap(p, r - 1, d - w);
    assert p * (r - 1) + p == p * r;
    assert p * (d - w) == (d - w) * p;
  }

  lemma SmallQuotient(n: U64, d: nat, p: nat)
    requires d > 0 && d * p >= B64 / 2
    ensures n / d + 1 <= 2 * p
  {
    var q := n / d;
    assert n == d * q + n % d;
    assert d * (2 * p) == 2 * (d * p);
    if 2 * p <= q { MulLe(2 * p, q, d); }
  }

  /** The shifted quotient of the halves is the quotient or one more, and which of the two can be told
      from the remainder the smaller one would leave. Here the shift is by s bits, p is 2 to the s and t
      is 2 to the 31 - s. */
  lemma EstimateCloses(n: U64, d: U64, p: nat, t: nat, v: U32)
    requires n >= d > 0 && p > 0 && t > 0 && p * (2 * t) == B32 && (t == 1 || t >= 2)
    requires d * p < B64 && v == d * p / B32 && v >= 0x8000_0000
    ensures var u := (n / 2) / v / t;
            && 1 <= u < B64
            && 0 <= (u - 1) * d <= n
            && n / d == if n - (u - 1) * d < d then u - 1 else u
  {
    var u, w, q := (n / 2) / v / t, v * (2 * t), n / d;
    HalvesQuotient(n, v, t);
    DroppedBits(d, p, 2 * t, v, w);
    assert (q + 1) * (d - w) <= w by {
      SmallQuotient(n, d, p);
      MulLe(0x8000_0000, v, 2 * t);
      ErrorBound(p, 2 * t, q, d - w, w);
    }
    Divided(n, d);
    Divided(n, w);
    EstimateOffByOne(n, d, w, q, n % d, u, n % w);
    Decide(n, d, q, n % d, u);
    MulLe(d, n, 1);
    QuotientPositive(n, d);
  }

  lemma Divided(n: nat, d: nat)
    requires d > 0
    ensures n == d * (n / d) + n % d && 0 <= n % d < d
  {
  }

  lemma QuotientPositive(n: nat, d: nat)
    requires n >= d > 0
    ensures 1 <= n / d <= n
  {
    Divided(n, d);
    MulGap(d, n / d, 1);
    MulLe(1, d, n / d);
  }

  lemma Decide(n: nat, d: nat, q: nat, rem: nat, u: nat)
    requires n == d * q + rem && rem < d && q <= u <= q + 1
    ensures (n - (u - 1) * d < d) == (u == q + 1) && (u > 0 ==> 0 <= (u - 1) * d <= n)
  {
  }

  // --------------------------------------------------------------------------
  // Remainders and signs. Conversions between the C types reduce modulo a power of two.

  function ToU32(x: int): U32 {
    x % B32
  }

  function ToU64(x: int): U64 {
    x % B64
  }

  function ToI32(x: int): I32 {
    (x + B32 / 2) % B32 - B32 / 2
  }

  function ToI64(x: int): I64 {
    (x + B64 / 2) % B64 - B64 / 2
  }

  const INT64_MIN: I64 := -0x8000_0000_0000_0000

  /** Negation wraps around. */
  function NegateU64(x: U64): U64 {
    (B64 - x) % B64
  }

  function NegateI64(x: I64): I64 {
    if x == INT64_MIN then x else -x
  }

  /** The magnitude of a signed number; that of the smallest one only fits when unsigned. */
  function Magnitude(n: I64): (a: U64)
    ensures a == Abs(n)
  {
    if n >= 0 then n else NegateU64(ToU64(n))
  }

  function Signed(positive: bool, magnitude: int): int {
    if positive then magnitude else -magnitude
  }

  /** The quotient rounded toward zero, and the remainder that goes with it. */
  function TruncatedQuotient(n: int, d: int): int
    requires d != 0
  {
    Signed((n < 0) == (d < 0), Abs(n) / Abs(d))
  }

  function TruncatedRemainder(n: int, d: int): int
    requires d != 0
  {
    Signed(n >= 0, Abs(n) % Abs(d))
  }

  /** Quotient and remainder fit together, and the remainder has the dividend's sign. */
  lemma TruncatedDivision(n: int, d: int)
    requires d != 0
    ensures n == d * TruncatedQuotient(n, d) + TruncatedRemainder(n, d)
    ensures Abs(TruncatedRemainder(n, d)) < Abs(d)
    ensures TruncatedRemainder(n, d) != 0 ==> (TruncatedRemainder(n, d) < 0 <==> n < 0)
  {
    Divided(Abs(n), Abs(d));
    assert Abs(d) * (Abs(n) / Abs(d)) == (if d < 0 then -d else d) * (Abs(n) / Abs(d));
  }

  /** The remainder is right exactly when it fits the 32-bit return type. */
  method Umod64(n: U64, d: U64) returns (r: U32)
    requires d > 0
    ensures r == n % d <==> n % d < B32
  {
    var q := Udiv64(n, d);
    Divided(n, d);
    r := ToU32(ToU64(n - ToU64(d * q)));
    Congruent(n, d * q);
  }

  lemma Congruent(n: U64, m: nat)
    requires m <= n
    ensures ToU64(n - ToU64(m)) == n - m
  {
  }

  /** The quotient rounded toward zero, for all inputs but the smallest number over -1, whose true quotient
      does not fit. */
  method Sdiv64(n: I64, d: I64) returns (q: I64)
    requires d != 0
    ensures q == TruncatedQuotient(n, d) <==> !(n == INT64_MIN && d == -1)
    ensures n == INT64_MIN && d == -1 ==> q == INT64_MIN
  {
    hide TruncatedQuotient;
    var nAbs, dAbs := Magnitude(n), Magnitude(d);
    var qAbs := Udiv64(nAbs, dAbs);
    QuotientAtMost(nAbs, dAbs);
    hide ToI64, NegateI64;
    q := if (n < 0) == (d < 0) then ToI64(qAbs) else NegateI64(ToI64(qAbs));
    TruncatedQuotientIs(n, d, qAbs);
    SignedQuotient(n, d, qAbs, q, TruncatedQuotient(n, d));
  }

  lemma TruncatedQuotientIs(n: int, d: int, a: nat)
    requires d != 0 && a == Abs(n) / Abs(d)
    ensures TruncatedQuotient(n, d) == Signed((n < 0) == (d < 0), a)
  {
  }

  /** The sign is right unless the magnitude has no positive counterpart. */
  lemma SignedQuotient(n: I64, d: I64, a: U64, q: I64, t: int)
    requires d != 0 && a <= B64 / 2 && (a == B64 / 2 ==> n == INT64_MIN && Abs(d) == 1) && (Abs(d) == 1 ==> a == Abs(n))
    requires q == if (n < 0) == (d < 0) then ToI64(a) else NegateI64(ToI64(a))
    requires t == Signed((n < 0) == (d < 0), a)
    ensures q == t <==> !(n == INT64_MIN && d == -1)
    ensures n == INT64_MIN && d == -1 ==> q == INT64_MIN
  {
  }

  /** A quotient of magnitudes is 2 to the 63 only for the smallest number over 1 or -1. */
  lemma QuotientAtMost(n: nat, d: nat)
    requires n <= B64 / 2 && d > 0
    ensures n / d <= B64 / 2
    ensures n / d == B64 / 2 ==> n == B64 / 2 && d == 1
    ensures d == 1 ==> n / d == n
  {
    Divided(n, d);
    MulLe(1, d, n / d);
    if d >= 2 {
      MulLe(2, d, n / d);
    }
  }

  /** The remainder is right exactly when it fits the 32-bit return type. */
  method Smod64(n: I64, d: I64) returns (r: I32)
    requires d != 0
    ensures r == TruncatedRemainder(n, d) <==> -B32 / 2 <= TruncatedRemainder(n, d) < B32 / 2
  {
    hide TruncatedQuotient, TruncatedRemainder;
    var q := Sdiv64(n, d);
    TruncatedDivision(n, d);
    TruncatedFits(n, d);
    assert !(n == INT64_MIN && d == -1) ==> n - d * q == TruncatedRemainder(n, d);
    SignedRemainder(n - d * q, TruncatedRemainder(n, d));
    r := ToI32(ToI64(n - ToI64(d * q)));
    Wraps(n, d * q);
  }

  lemma Wraps(n: I64, m: int)
    ensures ToI64(n - ToI64(m)) == ToI64(n - m)
  {
  }

  lemma SignedRemainder(x: int, t: int)
    requires -B64 / 2 <= t < B64 / 2 && (x == t || (t == 0 && x == -B64))
    ensures ToI32(ToI64(x)) == t <==> -B32 / 2 <= t < B32 / 2
  {
  }

  lemma TruncatedFits(n: I64, d: I64)
    requires d != 0
    ensures -B64 / 2 <= TruncatedRemainder(n, d) < B64 / 2
    ensures n == INT64_MIN && d == -1 ==> TruncatedRemainder(n, d) == 0
  {
    Divided(Abs(n), Abs(d));
  }
}
