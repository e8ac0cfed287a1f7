/** The 64-bit division routines of lib/arithmetic.c, built from the x86 instruction that
    divides 64 bits by 32 bits and traps when the quotient needs more than 32. */
module Arithmetic {
  import opened Machine
  import opened Powers

  const BB: nat := 0x1_0000_0000_0000_0000

  /** Unsigned 64-bit wrap-around, and reading 64 and 32 bits as signed. */
  function U64(x: int): (r: nat) { x % BB }
  function I64(x: int): (r: int) { if U64(x) < BB / 2 then U64(x) else U64(x) - BB }
  function I32(x: int): (r: int) { if x % BASE < BASE / 2 then x % BASE else x % BASE - BASE }

  predicate IsU64(x: int) { 0 <= x < BB }
  predicate IsI64(x: int) { -(BB / 2) <= x < BB / 2 }

  /** The 64-bit machine operations the routines are written with. */
  function Add(x: nat, y: nat): (r: nat) { U64(x + y) }
  function Sub(x: nat, y: nat): (r: nat) { U64(x - y) }
  function Mul(x: nat, y: nat): (r: nat) { U64(x * y) }
  function Shl(x: nat, s: nat): (r: nat) { U64(x * Pow2(s)) }
  function Shr(x: nat, s: nat): (r: nat) { Div(x, Pow2(s)) }
  function Div(x: nat, y: nat): (r: nat) requires y != 0 { x / y }
  function Mod(x: nat, y: nat): (r: nat) requires y != 0 ensures r < y { x % y }

  /** The DIVL instruction; the requires is the condition under which it does not trap. */
  function Divl(n: nat, d: nat): (q: nat)
    requires 0 < d < BASE && n < BB && Div(n, d) < BASE
  {
    Div(n, d)
  }

  // ---------------------------------------------------------------- facts about quotients

  lemma DivUnique(a: int, m: int, q: int)
    requires m > 0 && q * m <= a < q * m + m
    ensures a / m == q
  {
    var r := a - q * m;
    assert a == m * (a / m) + a % m;
    assert m * (q - a / m) == a % m - r;
    if q > a / m { MulAtLeast(m, q - a / m); } else if q < a / m { MulAtLeast(m, a / m - q); }
  }

  lemma MulAtLeast(m: int, k: int)
    requires m > 0 && k > 0
    ensures m * k >= m
  {
  }

  lemma DivDiv(a: nat, b: nat, c: nat)
    requires b > 0 && c > 0
    ensures b * c > 0 && a / b / c == a / (b * c)
  {
    var x := a / b;
    var y := x / c;
    assert b * x <= a < b * x + b;
    assert c * y <= x <= c * y + (c - 1);
    MulMono(b, c * y, x);
    MulMono(b, x, c * y + (c - 1));
    assert b * (c * y) == y * (b * c) && b * (c * y + (c - 1)) == y * (b * c) + b * c - b;
    DivUnique(a, b * c, y);
  }

  lemma MulMono(k: nat, x: int, y: int)
    requires x <= y
    ensures k * x <= k * y
  {
  }

  // ---------------------------------------------------------------- leading zeros

  /** n leading zeros bring x's highest set bit to the top of the word. */
  predicate IsNlz(x: nat, n: nat) { n <= 31 && BASE / 2 <= x * Pow2(n) < BASE }

  predicate Shifted(x: nat, n: nat, y: nat) { y == x * Pow2(n) }

  method Nlz(x: nat) returns (n: nat)
    requires 0 < x < BASE
    ensures IsNlz(x, n)
  {
    hide Shifted, Pow2, IsNlz;
    n := 0;
    var y := x;
    Unshifted(x);
    if y <= 0x0000FFFF { Shift(x, n, y, 16, 0x10000); n := n + 16; y := y * 0x10000 % BASE; }
    if y <= 0x00FFFFFF { Shift(x, n, y, 8, 0x100); n := n + 8; y := y * 0x100 % BASE; }
    if y <= 0x0FFFFFFF { Shift(x, n, y, 4, 0x10); n := n + 4; y := y * 0x10 % BASE; }
    if y <= 0x3FFFFFFF { Shift(x, n, y, 2, 4); n := n + 2; y := y * 4 % BASE; }
    if y <= 0x7FFFFFFF { Shift(x, n, y, 1, 2); n := n + 1; y := y * 2; }
    ShiftedToTheTop(x, n, y);
  }

  lemma Unshifted(x: nat)
    ensures Shifted(x, 0, x)
  {
  }

  lemma ShiftedToTheTop(x: nat, n: nat, y: nat)
    requires Shifted(x, n, y) && BASE / 2 <= y < BASE && n <= 31
    ensures IsNlz(x, n)
  {
  }

  lemma Shift(x: nat, n: nat, y: nat, k: nat, p: nat)
    requires Shifted(x, n, y) && y * p < BASE
    requires (k, p) == (16, 0x10000) || (k, p) == (8, 0x100) || (k, p) == (4, 0x10) || (k, p) == (2, 4) || (k, p) == (1, 2)
    ensures Shifted(x, n + k, y * p) && y * p % BASE == y * p
  {
    hide Pow2;
    Pow2Values();
    Pow2Add(n, k);
    assert x * (Pow2(n) * p) == x * Pow2(n) * p;
  }

  // ---------------------------------------------------------------- unsigned division

  lemma CancelLess(k: nat, x: int, y: int)
    requires k > 0 && k * x < k * y
    ensures x < y
  {
    if y <= x { MulMono(k, y, x); }
  }

  /** Shifting the divisor's top bit into place and keeping the high 32 bits is dividing it by p = 2^(32-s),
      and the result fills a 32-bit word. */
  lemma Normalised(d: nat, s: nat, k: nat, p: nat)
    requires BASE <= d < BB && IsNlz(d / BASE, s) && k == Pow2(s) && p == Pow2(32 - s)
    ensures Shl(d, s) / BASE == Div(d, p) && BASE / 2 <= Div(d, p) < BASE
  {
    hide Pow2, Shl, IsNlz;
    ShiftedTop(d / BASE, s, k);
    PowersMeet(s, k, p);
    Cancelled(d, k, p);
    TopBit(d, d / BASE, k, p);
    Shifted64(d, s, k);
  }

  lemma ShiftedTop(x: nat, s: nat, k: nat)
    requires IsNlz(x, s) && k == Pow2(s)
    ensures s <= 31 && BASE / 2 <= x * k < BASE
  {
  }

  lemma Shifted64(d: nat, s: nat, k: nat)
    requires k == Pow2(s) && d * k < BB
    ensures Shl(d, s) == d * k
  {
  }

  lemma Cancelled(d: nat, k: nat, p: nat)
    requires k > 0 && p > 0 && k * p == BASE
    ensures d * k / BASE == d / p
  {
    DivUnique(d * k, k, d);
    DivDiv(d * k, k, p);
  }

  lemma TopBit(d: nat, d1: nat, k: nat, p: nat)
    requires d1 == d / BASE && k > 0 && p > 0 && k * p == BASE && BASE / 2 <= d1 * k < BASE
    ensures d * k < BB && BASE / 2 <= d / p < BASE
  {
    CancelLess(k, d1, p);
    Between(p, BASE / 2, d1 * k);
    assert p * (d1 * k) == d1 * BASE;
    QuotientBounds(d, p, BASE / 2, BASE);
    MulMono(k, d, p * BASE - 1);
    assert k * (p * BASE - 1) == BASE * BASE - k;
  }

  lemma Between(p: nat, x: nat, y: nat)
    requires x <= y
    ensures x * p <= p * y
  {
  }

  lemma QuotientBounds(d: nat, p: nat, lo: nat, hi: nat)
    requires p > 0 && lo * p <= d < hi * p
    ensures lo <= d / p < hi
  {
    var q := d / p;
    assert p * q <= d < p * (q + 1);
    CancelLess(p, q, hi);
    CancelLess(p, lo, q + 1);
  }

  lemma PowersMeet(s: nat, k: nat, p: nat)
    requires s <= 31 && k == Pow2(s) && p == Pow2(32 - s)
    ensures k > 0 && p >= 2 && k * p == BASE
    ensures p == 2 * Pow2(31 - s) && (p == 2 || p >= 4)
  {
    Pow2Add(s, 32 - s);
    Pow2Values();
    assert Pow2(32 - s) == 2 * Pow2(31 - s);
  }

  /** Dividing by a divisor rounded down by less than p gives the quotient or one more. */
  lemma RoundedDivisor(n: nat, d: nat, v: nat, p: nat, e: nat)
    requires (p == 2 || p >= 4) && v >= BASE / 2 && v == Div(d, p) && n < BB && d > 0 && e == v * p
    ensures e > 0 && Div(n, d) <= Div(n, e) <= Div(n, d) + 1
  {
    RoundedDown(d, v, p, e);
    hide Div;
    var q := Div(n, d);
    NotFewer(n, d, e, q);
    OneTooMany(n, q + 1, d, v, p, e);
    QuotientBounds(n, e, q, q + 2);
    IsDiv(n, e);
  }

  lemma RoundedDown(d: nat, v: nat, p: nat, e: nat)
    requires p > 0 && v == Div(d, p) && v >= BASE / 2 && e == v * p
    ensures 0 < e <= d < e + p
  {
    Product(p, BASE / 2, v, e);
  }

  lemma IsDiv(n: nat, e: nat)
    requires e > 0
    ensures Div(n, e) == n / e
  {
  }

  lemma Product(p: nat, x: nat, v: nat, e: nat)
    requires e == v * p && x <= v
    ensures x * p <= e
  {
    MulMono(p, x, v);
  }

  lemma NotFewer(n: nat, d: nat, e: nat, q: nat)
    requires 0 < e <= d && q == Div(n, d)
    ensures q * e <= n < (q + 1) * d
  {
    MulMono(q, e, d);
  }

  lemma OneTooMany(n: nat, a: nat, d: nat, v: nat, p: nat, e: nat)
    requires n < a * d && n < BB && e == v * p && d < e + p && v >= BASE / 2 && (p == 2 || p >= 4)
    ensures n < (a + 1) * e
  {
    Product(p, BASE / 2, v, e);
    Spread(a, d, p, e);
    Grouped(a, v, p, e);
    Slack(n, a, p, a * p, a * e, e);
    assert (a + 1) * e == a * e + e;
  }

  lemma Spread(a: nat, d: nat, p: nat, e: nat)
    requires d < e + p
    ensures a * d <= a * e + a * p - a
  {
    MulMono(a, d, e + p - 1);
    assert a * (e + p - 1) == a * e + a * p - a;
  }

  lemma Grouped(a: nat, v: nat, p: nat, e: nat)
    requires e == v * p && v >= BASE / 2
    ensures BASE / 2 * (a * p) <= a * e
  {
    MulMono(a * p, BASE / 2, v);
    assert a * p * v == a * e;
  }

  /** The slack of the estimate: the rounded part of the divisor is too small to cost a second unit. */
  lemma Slack(n: nat, a: nat, p: nat, ap: nat, ae: nat, e: nat)
    requires n < BB && n < ae + ap - a && BASE / 2 * ap <= ae && BASE / 2 * p <= e
    requires p >= 4 || (p == 2 && ap == 2 * a)
    ensures n < ae + e
  {
  }

  method Udiv64(n: nat, d: nat) returns (q: nat)
    requires IsU64(n) && IsU64(d) && d != 0
    ensures q == Div(n, d)
  {
    hide Pow2, U64, Divl, Add, Sub, Mul, Shl, Shr, Div, Mod;
    if d / BASE == 0 {
      var n1, n0, d0 := n / BASE, n % BASE, d % BASE;
      ShortDivision(n, d);
      q := Add(Divl(Add(Mul(BASE, Mod(n1, d0)), n0), d0), Mul(BASE, Div(n1, d0)));
    } else if n < d {
      Smaller(n, d);
      q := 0;
    } else {
      var d1 := d / BASE;
      var s := Nlz(d1);
      EstimateIsClose(n, d, s);
      q := Shr(Divl(n / 2, Shl(d, s) / BASE), 31 - s);
      CorrectedEstimate(n, d, q);
      q := if Sub(n, Mul(q - 1, d)) < d then q - 1 else q;
    }
  }

  lemma Smaller(n: nat, d: nat)
    requires n < d
    ensures Div(n, d) == 0
  {
    DivUnique(n, d, 0);
  }

  lemma ShortDivision(n: nat, d: nat)
    requires IsU64(n) && 0 < d < BASE
    ensures var x := Add(Mul(BASE, Mod(n / BASE, d)), n % BASE);
      x < BB && Div(x, d) < BASE && Add(Divl(x, d), Mul(BASE, Div(n / BASE, d))) == Div(n, d)
  {
    hide Div, Mod;
    var n1, n0 := n / BASE, n % BASE;
    var x := BASE * Mod(n1, d) + n0;
    assert Add(Mul(BASE, Mod(n1, d)), n0) == x;
    Digits(n1, n0, d, x);
  }

  /** Long division in base 2^32 by a one-digit divisor. */
  lemma Digits(n1: nat, n0: nat, d: nat, x: nat)
    requires n1 < BASE && n0 < BASE && 0 < d < BASE && x == BASE * Mod(n1, d) + n0
    ensures Div(x, d) < BASE && Div(BASE * n1 + n0, d) == Div(x, d) + BASE * Div(n1, d) < BB
  {
    var t, u := Div(n1, d), Div(x, d);
    Parts(n1, d, t);
    Parts(x, d, u);
    hide Div, Mod;
    Regrouped(u, t, d);
    DivBounds(x, d, BASE);
    DivBounds(BASE * n1 + n0, d, BB);
    DivIs(BASE * n1 + n0, d, u + BASE * t);
  }

  lemma Parts(n: nat, d: nat, t: nat)
    requires d > 0 && t == Div(n, d)
    ensures n == t * d + Mod(n, d)
  {
  }

  lemma Regrouped(u: nat, t: nat, d: nat)
    ensures (u + BASE * t) * d == u * d + BASE * (t * d)
  {
  }

  lemma DivBounds(n: nat, d: nat, hi: nat)
    requires d > 0 && n < hi * d
    ensures Div(n, d) < hi
  {
    QuotientBounds(n, d, 0, hi);
  }

  lemma DivIs(n: nat, d: nat, q: nat)
    requires d > 0 && q * d <= n < q * d + d
    ensures Div(n, d) == q
  {
    DivUnique(n, d, q);
  }

  lemma EstimateIsClose(n: nat, d: nat, s: nat)
    requires BASE <= d <= n < BB && IsNlz(d / BASE, s)
    ensures var v := Shl(d, s) / BASE;
      0 < v < BASE && Div(n / 2, v) < BASE && Div(n, d) <= Shr(Divl(n / 2, v), 31 - s) <= Div(n, d) + 1
  {
    hide Pow2, Div;
    var k, p, h := Pow2(s), Pow2(32 - s), Pow2(31 - s);
    PowersMeet(s, k, p);
    Normalised(d, s, k, p);
    var v := Div(d, p);
    Half(n, v);
    Twice(n, d, v, h, p);
  }

  lemma Twice(n: nat, d: nat, v: nat, h: nat, p: nat)
    requires h > 0 && p == 2 * h && v == Div(d, p) && v >= BASE / 2 && (p == 2 || p >= 4) && n < BB && d > 0
    ensures Div(n, d) <= Div(Div(n / 2, v), h) <= Div(n, d) + 1
  {
    DivDiv(n, 2, v);
    DivDiv(n, 2 * v, h);
    assert 2 * v * h == v * p;
    RoundedDivisor(n, d, v, p, v * p);
  }

  lemma Half(n: nat, v: nat)
    requires n < BB && v >= BASE / 2
    ensures Div(n / 2, v) < BASE
  {
    MulMono(BASE, BASE / 2, v);
    QuotientBounds(n / 2, v, 0, BASE);
  }

  /** Backing off by one divisor tells the two possible estimates apart, without wrapping. */
  lemma CorrectedEstimate(n: nat, d: nat, q: nat)
    requires 0 < d <= n < BB && Div(n, d) <= q <= Div(n, d) + 1
    ensures q >= 1
    ensures (if Sub(n, Mul(q - 1, d)) < d then q - 1 else q) == Div(n, d)
  {
    var t := Div(n, d);
    Parts(n, d, t);
    QuotientBounds(n, d, 1, BB);
    hide Div, Mod, Sub, Mul;
    var y := (q - 1) * d;
    OneBack(t, q, d, y);
    BackedOff(n, q - 1, d, y);
  }

  lemma OneBack(t: nat, q: nat, d: nat, y: int)
    requires t <= q <= t + 1 && y == (q - 1) * d
    ensures y == if q == t then t * d - d else t * d
  {
  }

  lemma BackedOff(n: nat, q: nat, d: nat, y: nat)
    requires y == q * d && y <= n < BB
    ensures Sub(n, Mul(q, d)) == n - y
  {
    NoWrap(n, y);
  }

  lemma NoWrap(n: nat, y: int)
    requires 0 <= y <= n < BB
    ensures U64(n - U64(y)) == n - y
  {
  }

  // ---------------------------------------------------------------- remainders and signed division

  method Umod64(n: nat, d: nat) returns (r: nat)
    requires IsU64(n) && IsU64(d) && d != 0
    ensures r == Mod(n, d) % BASE
  {
    hide U64, Sub, Mul, Div, Mod;
    var q := Udiv64(n, d);
    TakenAway(n, d);
    r := Sub(n, Mul(d, q)) % BASE;
  }

  lemma TakenAway(n: nat, d: nat)
    requires IsU64(n) && d != 0
    ensures Sub(n, Mul(d, Div(n, d))) == Mod(n, d)
  {
    var y := d * (n / d);
    assert y + n % d == n;
    NoWrap(n, y);
  }

  /** The 32-bit result is the remainder for every numerator exactly when the divisor is at most 2^32. */
  lemma Umod64ExactWhen(d: nat)
    requires IsU64(d) && d != 0
    ensures (forall n: nat :: IsU64(n) ==> Mod(n, d) % BASE == Mod(n, d)) <==> d <= BASE
  {
    if d <= BASE {
      assert forall n: nat :: Mod(n, d) < BASE;
    } else {
      SmallMod(BASE, d);
      assert IsU64(BASE) && Mod(BASE, d) % BASE != Mod(BASE, d);
    }
  }

  lemma SmallMod(n: nat, d: nat)
    requires n < d
    ensures Mod(n, d) == n
  {
    DivUnique(n, d, 0);
  }

  function Abs(x: int): (r: nat) { if x < 0 then -x else x }

  /** C's quotient and remainder: rounded towards zero, the remainder with the sign of the numerator. */
  function Quotient(n: int, d: int): (q: int)
    requires d != 0
  {
    if (n < 0) == (d < 0) then Div(Abs(n), Abs(d)) else -(Div(Abs(n), Abs(d)) as int)
  }

  function Remainder(n: int, d: int): (r: int)
    requires d != 0
  {
    if n < 0 then -(Mod(Abs(n), Abs(d)) as int) else Mod(Abs(n), Abs(d))
  }

  lemma QuotientAndRemainder(n: int, d: int)
    requires d != 0
    ensures n == d * Quotient(n, d) + Remainder(n, d)
    ensures Abs(Remainder(n, d)) < Abs(d)
  {
    var a, b := Abs(n), Abs(d);
    var q: int := a / b;
    assert a == b * q + a % b;
    Signs(b, q);
  }

  lemma Signs(b: int, q: int)
    ensures (-b) * q == -(b * q) && b * (-q) == -(b * q) && (-b) * (-q) == b * q
  {
  }

  predicate Overflows(n: int, d: int) { n == -(BB / 2) && d == -1 }

  method Sdiv64(n: int, d: int) returns (q: int)
    requires IsI64(n) && IsI64(d) && d != 0
    ensures q == if Overflows(n, d) then n else Quotient(n, d)
  {
    hide Div, U64, I64;
    Magnitude(n);
    Magnitude(d);
    var nAbs: nat := if n >= 0 then U64(n) else U64(-(U64(n) as int));
    var dAbs: nat := if d >= 0 then U64(d) else U64(-(U64(d) as int));
    var qAbs := Udiv64(nAbs, dAbs);
    QuotientFits(n, d);
    WithSign(qAbs);
    q := if (n < 0) == (d < 0) then I64(qAbs) else I64(-I64(qAbs));
  }

  lemma Magnitude(n: int)
    requires IsI64(n)
    ensures (if n >= 0 then U64(n) else U64(-(U64(n) as int))) == Abs(n) < BB
  {
  }

  lemma WithSign(q: nat)
    requires q <= BB / 2
    ensures I64(-I64(q)) == -(q as int) && I64(q) == if q == BB / 2 then -(q as int) else q
  {
  }

  lemma QuotientFits(n: int, d: int)
    requires IsI64(n) && IsI64(d) && d != 0
    ensures Div(Abs(n), Abs(d)) <= BB / 2
    ensures Div(Abs(n), Abs(d)) == BB / 2 ==> n == -(BB / 2) && (d == 1 || d == -1)
    ensures Overflows(n, d) ==> Div(Abs(n), Abs(d)) == BB / 2
  {
    var a, b := Abs(n), Abs(d);
    MulMono(BB / 2, 1, b);
    QuotientBounds(a, b, 0, BB / 2 + 1);
    if b >= 2 { MulMono(BB / 2, 2, b); QuotientBounds(a, b, 0, BB / 2); }
  }

  method Smod64(n: int, d: int) returns (r: int)
    requires IsI64(n) && IsI64(d) && d != 0
    ensures r == I32(Remainder(n, d))
  {
    hide Quotient, Remainder;
    var q := Sdiv64(n, d);
    SignedTakenAway(n, d, q);
    r := I32(I64(n - I64(d * q)));
  }

  lemma SignedTakenAway(n: int, d: int, q: int)
    requires IsI64(n) && IsI64(d) && d != 0 && q == if Overflows(n, d) then n else Quotient(n, d)
    ensures I64(n - I64(d * q)) == Remainder(n, d)
  {
    hide Quotient, Remainder, I64;
    QuotientAndRemainder(n, d);
    if Overflows(n, d) {
      Wraps(n, -n);
      SmallestByMinusOne();
    } else {
      RemainderFits(n, d);
      Wraps(n, d * q);
    }
  }

  lemma Wraps(n: int, y: int)
    requires IsI64(n - y) || n - y + BB == 0
    ensures I64(n - I64(y)) == if IsI64(n - y) then n - y else 0
  {
  }

  lemma SmallestByMinusOne()
    ensures Remainder(-(BB / 2), -1) == 0
  {
  }

  lemma RemainderFits(n: int, d: int)
    requires IsI64(n) && IsI64(d) && d != 0
    ensures IsI64(Remainder(n, d))
  {
    QuotientAndRemainder(n, d);
  }

  /** The 32-bit result is the remainder for every numerator exactly when the divisor's size is at most 2^31. */
  lemma Smod64ExactWhen(d: int)
    requires IsI64(d) && d != 0
    ensures (forall n: int :: IsI64(n) ==> I32(Remainder(n, d)) == Remainder(n, d)) <==> Abs(d) <= BASE / 2
  {
    if Abs(d) <= BASE / 2 {
      forall n: int | IsI64(n)
        ensures I32(Remainder(n, d)) == Remainder(n, d)
      {
        QuotientAndRemainder(n, d);
      }
    } else {
      SmallMod(BASE / 2, Abs(d));
      assert IsI64(BASE / 2) && I32(Remainder(BASE / 2, d)) != Remainder(BASE / 2, d);
    }
  }
}
