/**
 * Finite binary64 numbers, as far as the conversion of stored values needs them: their exact values,
 * and the rounding of integers to the nearest one, ties to even (section 4.3.1 of IEEE 754-2008).
 */
module Floats {

  const TWO52 := 0x10_0000_0000_0000
  const TWO53 := 0x20_0000_0000_0000
  const TWO63 := 0x8000_0000_0000_0000
  const MIN_EXP := -1074
  const MAX_EXP := 971

  /** `man * 2^exp`, negated if `neg`; the significand is normalised wherever the exponent allows it. */
  datatype Binary64 = Binary64(neg: bool, man: nat, exp: int)

  predicate Finite(f: Binary64) {
    && f.man < TWO53
    && MIN_EXP <= f.exp <= MAX_EXP
    && (TWO52 <= f.man || f.exp == MIN_EXP)
  }

  type F64 = f: Binary64 | Finite(f) witness Binary64(false, 0, MIN_EXP)

  // ---- Powers of two ----

  function Pow2(n: nat): (p: nat)
    ensures 1 <= p
  {
    if n == 0 then 1 else 2 * Pow2(n - 1)
  }

  lemma {:induction false} Pow2Add(a: nat, b: nat)
    ensures Pow2(a + b) == Pow2(a) * Pow2(b)
    decreases a
  {
    if a > 0 {
      Pow2Add(a - 1, b);
      MulAssoc(2, Pow2(a - 1), Pow2(b));
    }
  }

  /** The numbers of the format: 53 bits of significand, exponents from -1074 to 971. */
  lemma FloatFormat()
    ensures TWO52 == Pow2(52) && TWO53 == Pow2(53) && TWO63 == Pow2(63) && MIN_EXP == -1074 && MAX_EXP == 971
  {
    hide Pow2;
    SmallPowers();
    Pow2Is(5, 5, 32, 32);
    Pow2Is(10, 10, 1024, 1024);
    Pow2Is(20, 20, 0x10_0000, 0x10_0000);
    Pow2Is(40, 10, 0x100_0000_0000, 1024);
    Pow2Is(50, 2, 0x4_0000_0000_0000, 4);
    Pow2Is(50, 3, 0x4_0000_0000_0000, 8);
    Pow2Is(53, 10, TWO53, 1024);
  }

  lemma SmallPowers()
    ensures Pow2(2) == 4 && Pow2(3) == 8 && Pow2(5) == 32
  {
    assert Pow2(5) == 2 * Pow2(4) && Pow2(4) == 2 * Pow2(3);
  }

  lemma Pow2Is(a: nat, b: nat, p: nat, q: nat)
    requires Pow2(a) == p && Pow2(b) == q
    ensures Pow2(a + b) == p * q
  {
    hide Pow2;
    Pow2Add(a, b);
  }

  // ---- Exact values ----

  /** The value in units of the smallest positive number, 2^-1074. */
  function Scaled(f: F64): int {
    var m: int := Magnitude(f);
    if f.neg then -m else m
  }

  function Magnitude(f: F64): nat {
    MulNat(f.man, Pow2(f.exp - MIN_EXP));
    f.man * Pow2(f.exp - MIN_EXP)
  }

  lemma MulNat(a: nat, b: nat)
    ensures 0 <= a * b
  {
  }

  /** One, in the same units. */
  function One(): (p: nat)
    ensures 1 <= p
  {
    Pow2(-MIN_EXP)
  }

  predicate Equals(f: F64, i: int) {
    Scaled(f) == i * One()
  }

  predicate Whole(f: F64) {
    Scaled(f) % One() == 0
  }

  lemma WholeIff(f: F64)
    ensures Whole(f) <==> exists i :: Equals(f, i)
    ensures Whole(f) ==> Equals(f, Scaled(f) / One())
  {
    hide Scaled, One;
    var s, p := Scaled(f), One();
    DivMod(s, p);
    if Whole(f) {
      assert Equals(f, s / p);
    }
    if i :| Equals(f, i) {
      DivExact(i, p);
    }
  }

  lemma DivMod(s: int, p: nat)
    requires 1 <= p
    ensures s == (s / p) * p + s % p
  {
  }

  lemma QuotientUnique(p: nat, q1: int, r1: int, q2: int, r2: int)
    requires 0 <= r1 < p && 0 <= r2 < p && q1 * p + r1 == q2 * p + r2
    ensures q1 == q2 && r1 == r2
  {
    if q1 < q2 {
      MulMono(q1 + 1, q2, p);
    } else if q2 < q1 {
      MulMono(q2 + 1, q1, p);
    }
  }

  lemma MulMono(a: int, b: int, p: nat)
    requires a <= b
    ensures a * p <= b * p
    ensures (a + 1) * p == a * p + p && (a - 1) * p == a * p - p
  {
  }

  lemma MulDist(a: int, b: int, c: int)
    ensures (a + b) * c == a * c + b * c
    ensures (a - b) * c == a * c - b * c
  {
  }

  lemma MulAssoc(a: int, b: int, c: int)
    ensures (a * b) * c == a * (b * c)
  {
  }

  lemma DivExact(i: int, p: nat)
    requires 1 <= p
    ensures (i * p) % p == 0 && (i * p) / p == i
  {
    DivMod(i * p, p);
    QuotientUnique(p, i, 0, (i * p) / p, (i * p) % p);
  }

  /** A float is the integer of at most one value. */
  lemma EqualsUnique(f: F64, i: int, j: int)
    requires Equals(f, i) && Equals(f, j)
    ensures i == j
  {
    DivExact(i, One());
    DivExact(j, One());
  }

  // ---- Rounding an integer ----

  /** How many low bits of `m` do not fit a significand. */
  function Excess(m: nat): (k: nat)
    ensures m < TWO53 * Pow2(k)
    ensures 0 < k ==> TWO52 * Pow2(k) <= m
    ensures m <= 0x1_0000_0000_0000_0000 ==> k <= 12
    decreases m
  {
    if m < TWO53 then 0 else 1 + Excess(m / 2)
  }

  /** A positive significand below 2^53, shifted up as far as the format allows. */
  function Normal(man: nat, exp: int): (f: F64)
    requires man < TWO53 && MIN_EXP <= exp <= MAX_EXP
    ensures Magnitude(f) == man * Pow2(exp - MIN_EXP) && !f.neg
    decreases exp - MIN_EXP
  {
    if TWO52 <= man || exp == MIN_EXP then Binary64(false, man, exp)
    else Normal(2 * man, exp - 1)
  }

  lemma DivNat(a: nat, b: nat)
    requires 1 <= b
    ensures 0 <= a / b && 0 <= a % b
  {
  }

  function Quotient(m: nat, k: nat): nat {
    DivNat(m, Pow2(k));
    m / Pow2(k)
  }

  function Remainder(m: nat, k: nat): nat {
    DivNat(m, Pow2(k));
    m % Pow2(k)
  }

  lemma Split(m: nat, k: nat)
    ensures m == Quotient(m, k) * Pow2(k) + Remainder(m, k)
    ensures 0 <= Remainder(m, k) < Pow2(k)
    ensures k == 0 ==> Quotient(m, k) == m && Remainder(m, k) == 0
  {
    DivMod(m, Pow2(k));
    ByOne(m);
  }

  /** The quotient by 2^k, rounded to nearest, ties to even. */
  function RoundedQuotient(m: nat, k: nat): (q: nat)
    ensures q == Quotient(m, k) || q == Quotient(m, k) + 1
  {
    var q, r := Quotient(m, k), Remainder(m, k);
    if 2 * r > Pow2(k) || (2 * r == Pow2(k) && q % 2 == 1) then q + 1 else q
  }

  function RoundMagnitude(m: nat): (f: F64)
    requires m <= 0x1_0000_0000_0000_0000
    ensures !f.neg
  {
    var k := Excess(m);
    var q := RoundedQuotient(m, k);
    QuotientFits(m);
    if q == TWO53 then Binary64(false, TWO52, k + 1) else if k == 0 then Normal(m, 0) else Binary64(false, q, k)
  }

  lemma QuotientFits(m: nat)
    ensures var k, q := Excess(m), RoundedQuotient(m, Excess(m));
      && q <= TWO53 && (k == 0 ==> q == m < TWO53) && (k > 0 ==> TWO52 <= q)
  {
    hide Pow2, Quotient, Remainder;
    var k := Excess(m);
    var p, q := Pow2(k), Quotient(m, k);
    Split(m, k);
    hide Excess;
    if q >= TWO53 {
      MulMono(TWO53, q, p);
    }
    if k > 0 && q < TWO52 {
      MulMono(q + 1, TWO52, p);
      MulDist(q, 1, p);
    }
  }

  lemma ByOne(m: nat)
    ensures m / Pow2(0) == m && m % Pow2(0) == 0
  {
  }

  /** The cast of an integer to binary64. */
  function Round(i: int): F64
    requires -0x1_0000_0000_0000_0000 <= i <= 0x1_0000_0000_0000_0000
  {
    if i < 0 then RoundMagnitude(-i).(neg := true) else RoundMagnitude(i)
  }

  // ---- Rounding is to nearest ----

  function Distance(f: F64, i: int): nat {
    var d := Scaled(f) - i * One();
    if d < 0 then -d else d
  }

  /** `2^k` in the units of `Scaled`. */
  function Unit(k: nat): (u: nat)
    ensures u == Pow2(k) * One()
  {
    Pow2Add(k, -MIN_EXP);
    Pow2(k - MIN_EXP)
  }

  lemma RoundMagnitudeValue(m: nat)
    requires m <= 0x1_0000_0000_0000_0000
    ensures Scaled(RoundMagnitude(m)) == RoundedQuotient(m, Excess(m)) * Unit(Excess(m))
  {
    var k, q := Excess(m), RoundedQuotient(m, Excess(m));
    QuotientFits(m);
    if q == TWO53 {
      assert Pow2(k + 1 - MIN_EXP) == 2 * Pow2(k - MIN_EXP);
      assert TWO52 * (2 * Pow2(k - MIN_EXP)) == TWO53 * Pow2(k - MIN_EXP);
    }
  }

  /** No float lies strictly between two neighbouring multiples of `2^k` from `2^(52+k)` on. */
  lemma NoneBetween(g: F64, k: nat, q: nat)
    requires 0 < k && TWO52 <= q
    ensures Magnitude(g) <= q * Unit(k) || (q + 1) * Unit(k) <= Magnitude(g)
  {
    hide Unit, Magnitude;
    if g.exp >= k {
      AboveUnit(g, k, q);
    } else {
      BelowUnit(g, k, q);
    }
  }

  lemma AboveUnit(g: F64, k: nat, q: nat)
    requires k <= g.exp
    ensures Magnitude(g) <= q * Unit(k) || (q + 1) * Unit(k) <= Magnitude(g)
  {
    var u, n := Pow2(k - MIN_EXP), g.man * Pow2(g.exp - k);
    Pow2Add(g.exp - k, k - MIN_EXP);
    hide Pow2;
    MulAssoc(g.man, Pow2(g.exp - k), u);
    if n <= q {
      MulMono(n, q, u);
    } else {
      MulMono(q + 1, n, u);
    }
  }

  lemma BelowUnit(g: F64, k: nat, q: nat)
    requires 0 < k && g.exp < k && TWO52 <= q
    ensures Magnitude(g) <= q * Unit(k)
  {
    var small, half, u := Pow2(g.exp - MIN_EXP), Pow2(k - 1 - MIN_EXP), Pow2(k - MIN_EXP);
    Pow2Add(k - 1 - g.exp, g.exp - MIN_EXP);
    assert u == 2 * half;
    hide Pow2;
    MulMono(1, Pow2(k - 1 - g.exp), small);
    MulMono(g.man, TWO53, small);
    MulMono(small, half, TWO53);
    MulMono(TWO52, q, u);
  }

  lemma Products(m: int, q: int, p: int, r: int, one: int, u: int)
    requires m == q * p + r && u == p * one
    ensures m * one == q * u + r * one
    ensures (q + 1) * u == m * one + (p - r) * one
  {
    MulDist(q * p, r, one);
    MulAssoc(q, p, one);
    MulDist(q, 1, u);
    MulDist(p, r, one);
  }

  /** An integer between its neighbouring multiples of `2^k`, all in the units of `Scaled`. */
  lemma Between(m: nat, k: nat)
    ensures var q, r := Quotient(m, k), Remainder(m, k);
      && 0 <= r < Pow2(k)
      && m * One() == q * Unit(k) + r * One()
      && (q + 1) * Unit(k) == m * One() + (Pow2(k) - r) * One()
  {
    hide Pow2, One, Quotient, Remainder;
    Split(m, k);
    Products(m, Quotient(m, k), Pow2(k), Remainder(m, k), One(), Unit(k));
  }

  /** The magnitude nearest to `m`: nothing outside the two neighbouring multiples is closer, and when
      something is as close the significand is even. */
  lemma NearestMagnitude(m: nat, t: int)
    requires m <= 0x1_0000_0000_0000_0000
    requires var k := Excess(m);
      k > 0 ==> t <= Quotient(m, k) * Unit(k) || (Quotient(m, k) + 1) * Unit(k) <= t
    ensures var x, c := m * One(), Scaled(RoundMagnitude(m));
      && Abs(c - x) <= Abs(t - x)
      && (Abs(c - x) == Abs(t - x) && t != c ==> RoundMagnitude(m).man % 2 == 0)
  {
    hide Pow2, Excess, Unit, One, Scaled, RoundedQuotient, Quotient, Remainder, RoundMagnitude, NearestOf;
    var k := Excess(m);
    if k == 0 {
      WholeMagnitude(m);
    } else {
      Between(m, k);
      RoundMagnitudeValue(m);
      QuotientIsNearest(m, k);
      EvenMagnitude(m);
      NearestNeighbour(m * One(), RoundedQuotient(m, k), Quotient(m, k), Remainder(m, k), Pow2(k), One(), Unit(k), t);
    }
  }

  /** Integers of at most 53 bits are values of floats. */
  lemma WholeMagnitude(m: nat)
    requires m <= 0x1_0000_0000_0000_0000 && Excess(m) == 0
    ensures Scaled(RoundMagnitude(m)) == m * One()
  {
    RoundMagnitudeValue(m);
    QuotientFits(m);
    hide One, Scaled, RoundMagnitude, RoundedQuotient;
    MulAssoc(m, Pow2(0), One());
  }

  lemma EvenMagnitude(m: nat)
    requires m <= 0x1_0000_0000_0000_0000 && Excess(m) > 0
    ensures RoundMagnitude(m).man % 2 == RoundedQuotient(m, Excess(m)) % 2
  {
    QuotientFits(m);
    hide RoundedQuotient, Excess;
  }

  lemma QuotientIsNearest(m: nat, k: nat)
    ensures var q, r, n := Quotient(m, k), Remainder(m, k), RoundedQuotient(m, k);
      NearestOf(n, q, r, Pow2(k))
  {
  }

  /** Of `q` and `q + 1`, `n` is the one closer to `q + r/p`, or the even one. */
  predicate NearestOf(n: nat, q: nat, r: nat, p: nat) {
    && (n == q || n == q + 1)
    && (2 * r < p ==> n == q)
    && (2 * r > p ==> n == q + 1)
    && (2 * r == p ==> n % 2 == 0)
  }

  function Abs(x: int): nat {
    if x < 0 then -x else x
  }

  lemma NearestNeighbour(x: int, n: nat, q: nat, r: nat, p: nat, one: nat, u: nat, t: int)
    requires r < p && 1 <= one && NearestOf(n, q, r, p)
    requires x == q * u + r * one && (q + 1) * u == x + (p - r) * one
    requires t <= q * u || (q + 1) * u <= t
    ensures Abs(n * u - x) <= Abs(t - x)
    ensures Abs(n * u - x) == Abs(t - x) && t != n * u ==> n % 2 == 0
  {
    var low, a, b := q * u, r * one, (p - r) * one;
    MulNat(r, one);
    MulNat(p - r, one);
    if 2 * r > p {
      MulMono(p - r + 1, r, one);
      MulDist(p - r, 1, one);
    } else if 2 * r < p {
      MulMono(r + 1, p - r, one);
      MulDist(r, 1, one);
    } else {
      assert r == p - r;
    }
    assert n * u == if n == q then low else low + a + b;
    Chosen(n, q, r, p, low, x, a, b, n * u, t);
  }

  lemma Chosen(n: nat, q: nat, r: nat, p: nat, low: int, x: int, a: int, b: int, c: int, t: int)
    requires NearestOf(n, q, r, p) && 0 <= a && 0 <= b && x == low + a && (t <= low || low + a + b <= t)
    requires (2 * r > p ==> b < a) && (2 * r < p ==> a < b) && (2 * r == p ==> a == b)
    requires c == if n == q then low else low + a + b
    ensures Abs(c - x) <= Abs(t - x)
    ensures Abs(c - x) == Abs(t - x) && t != c ==> n % 2 == 0
  {
    Nearer(low, x, a, b, t);
  }

  /** Of two neighbours of `x`, `a` below and `b` above it, the nearer one is the nearest number that is
      not between them. */
  lemma Nearer(low: int, x: int, a: nat, b: nat, t: int)
    requires x == low + a && (t <= low || low + a + b <= t)
    ensures a <= b ==> Abs(low - x) <= Abs(t - x)
    ensures b <= a ==> Abs(low + a + b - x) <= Abs(t - x)
    ensures a < b && t != low ==> Abs(low - x) < Abs(t - x)
    ensures b < a && t != low + a + b ==> Abs(low + a + b - x) < Abs(t - x)
  {
  }

  /** Rounding to nearest, ties to even: no float is closer to the integer, and the significand is even
      when another float is as close. */
  lemma RoundIsNearest(i: int, g: F64)
    requires -0x1_0000_0000_0000_0000 <= i <= 0x1_0000_0000_0000_0000
    ensures Distance(Round(i), i) <= Distance(g, i)
    ensures Distance(Round(i), i) == Distance(g, i) && Scaled(g) != Scaled(Round(i)) ==> Round(i).man % 2 == 0
  {
    hide Pow2, Excess, RoundMagnitude, RoundedQuotient, Unit, One, Scaled;
    var m := Abs(i);
    NotBetween(g, m);
    NearestMagnitude(m, if i < 0 then -Scaled(g) else Scaled(g));
    Negated(RoundMagnitude(m));
    assert (-m) * One() == -(m * One());
  }

  lemma NotBetween(g: F64, m: nat)
    ensures var k := Excess(m);
      k > 0 ==>
        var low, high := Quotient(m, k) * Unit(k), (Quotient(m, k) + 1) * Unit(k);
        (Scaled(g) <= low || high <= Scaled(g)) && (-Scaled(g) <= low || high <= -Scaled(g))
  {
    hide Pow2, Unit, Magnitude, Quotient, Excess;
    var k := Excess(m);
    if k > 0 {
      QuotientFits(m);
      AtLeast52(m);
      NoneBetween(g, k, Quotient(m, k));
      MulNat(Quotient(m, k), Unit(k));
    }
  }

  lemma AtLeast52(m: nat)
    requires Excess(m) > 0
    ensures TWO52 <= Quotient(m, Excess(m))
  {
    hide Pow2, Quotient, Remainder;
    var k := Excess(m);
    var p, q := Pow2(k), Quotient(m, k);
    Split(m, k);
    hide Excess;
    if q < TWO52 {
      MulMono(q + 1, TWO52, p);
      MulDist(q, 1, p);
    }
  }

  lemma Negated(f: F64)
    requires !f.neg
    ensures Scaled(f.(neg := true)) == -Scaled(f)
  {
  }

  /** An integer is the value of some float exactly when rounding leaves it. */
  lemma RepresentableIff(i: int)
    requires -0x1_0000_0000_0000_0000 <= i <= 0x1_0000_0000_0000_0000
    ensures Equals(Round(i), i) <==> exists f: F64 :: Equals(f, i)
  {
    if f: F64 :| Equals(f, i) {
      RoundIsNearest(i, f);
    }
  }

  /** ... which is when it is a significand of 53 bits times a power of two. */
  lemma RepresentableBits(i: int)
    requires -0x1_0000_0000_0000_0000 <= i <= 0x1_0000_0000_0000_0000
    ensures Equals(Round(i), i) <==> Excess(Abs(i)) == 0 || i % Pow2(Excess(Abs(i))) == 0
  {
    hide Pow2, Excess, RoundMagnitude, RoundedQuotient, Unit, One, Scaled;
    var m := Abs(i);
    var p := Pow2(Excess(m));
    ExactMagnitude(m);
    Negated(RoundMagnitude(m));
    assert (-m) * One() == -(m * One());
    if i < 0 {
      NegatedMultiple(m, p);
    }
  }

  lemma ExactMagnitude(m: nat)
    requires m <= 0x1_0000_0000_0000_0000
    ensures Scaled(RoundMagnitude(m)) == m * One() <==> m % Pow2(Excess(m)) == 0
    ensures Excess(m) == 0 ==> m % Pow2(Excess(m)) == 0
  {
    hide Pow2, Excess, RoundMagnitude, Unit, One, Scaled, Quotient, RoundedQuotient;
    var k := Excess(m);
    var q, r, p, one := Quotient(m, k), Remainder(m, k), Pow2(k), One();
    Between(m, k);
    RoundMagnitudeValue(m);
    Split(m, k);
    QuotientOfExact(m, k);
    if r > 0 {
      MulMono(1, r, one);
      MulMono(1, p - r, one);
    }
  }

  lemma QuotientOfExact(m: nat, k: nat)
    ensures Remainder(m, k) == 0 ==> RoundedQuotient(m, k) == Quotient(m, k)
  {
  }

  lemma NegatedMultiple(m: int, p: nat)
    requires 1 <= p
    ensures (-m) % p == 0 <==> m % p == 0
  {
    MultipleNegated(m, p);
    MultipleNegated(-m, p);
  }

  lemma MultipleNegated(m: int, p: nat)
    requires 1 <= p
    ensures m % p == 0 ==> (-m) % p == 0
  {
    var q := m / p;
    DivMod(m, p);
    DivExact(-q, p);
    assert (-q) * p == -(q * p);
  }
}
