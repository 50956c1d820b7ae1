/** metaprogramming/metaprogramming.cpp: Euclid's algorithm and fractions in lowest terms, as computed by
    the compiler.  A template argument that overflows `int` does not compile, so the integers here are
    unbounded. */
module Rationals {
  import Words

  // ----- `/` and `%` of C++ (section 5.6 of ISO/IEC 14882:2011): truncation toward zero

  function Abs(n: int): nat {
    if n < 0 then -n else n
  }

  function Quotient(b: int, a: int): int
    requires a != 0
  {
    if (b < 0) == (a < 0) then Abs(b) / Abs(a) else -(Abs(b) / Abs(a))
  }

  function Remainder(b: int, a: int): (r: int)
    requires a != 0
    ensures Abs(r) < Abs(a)
    ensures r != 0 ==> (r < 0 <==> b < 0)
  {
    if b < 0 then -(Abs(b) % Abs(a)) else Abs(b) % Abs(a)
  }

  lemma DivisionIdentity(b: int, a: int)
    requires a != 0
    ensures b == a * Quotient(b, a) + Remainder(b, a)
  {
    var m, n := Abs(a), Abs(b);
    var q, r := n / m, n % m;
    assert n == m * q + r;
    SignedProduct(a, q);
  }

  lemma SignedProduct(a: int, q: int)
    ensures a * -q == -(a * q) && -a * q == -(a * q)
  {
  }

  // ----- the templates

  datatype Fraction = Fraction(num: int, den: int)

  datatype Option<T> = None | Some(value: T)

  /** `GCD<a, b>::result`: the result can be negative. */
  function Gcd(a: int, b: int): int
    decreases Abs(a)
  {
    if a == 0 then b else Gcd(Remainder(b, a), a)
  }

  /** `simplified<F>::Simplified`: dividing by a zero GCD does not compile. */
  function Simplified(f: Fraction): Option<Fraction> {
    var g := Gcd(f.num, f.den);
    if g == 0 then None else Some(Fraction(Quotient(f.num, g), Quotient(f.den, g)))
  }

  function ScalarMultiplication(n: int, f: Fraction): Fraction {
    Fraction(n * f.num, n * f.den)
  }

  // ----- what Gcd computes

  ghost predicate Divides(d: int, n: int) {
    exists q :: Times(q, d) == n
  }

  function Times(q: int, d: int): int {
    q * d
  }

  lemma DividesCombination(d: int, x: int, y: int, k: int)
    requires Divides(d, x) && Divides(d, y)
    ensures Divides(d, x * k + y)
  {
    var p, q :| Times(p, d) == x && Times(q, d) == y;
    assert Times(p * k + q, d) == x * k + y;
  }

  /** The result divides both arguments. */
  lemma {:induction false} GcdDivides(a: int, b: int)
    ensures Divides(Gcd(a, b), a) && Divides(Gcd(a, b), b)
    decreases Abs(a)
  {
    if a == 0 {
      assert Times(0, b) == 0 && Times(1, b) == b;
    } else {
      var r := Remainder(b, a);
      GcdDivides(r, a);
      DivisionIdentity(b, a);
      DividesCombination(Gcd(a, b), a, r, Quotient(b, a));
    }
  }

  /** Every common divisor divides the result. */
  lemma {:induction false} GcdGreatest(d: int, a: int, b: int)
    requires Divides(d, a) && Divides(d, b)
    ensures Divides(d, Gcd(a, b))
    decreases Abs(a)
  {
    if a != 0 {
      var q := Quotient(b, a);
      DivisionIdentity(b, a);
      DividesCombination(d, a, b, -q);
      assert a * -q == -(a * q);
      GcdGreatest(d, Remainder(b, a), a);
    }
  }

  lemma GcdZero(a: int, b: int)
    ensures Gcd(a, b) == 0 <==> a == 0 && b == 0
  {
    GcdDivides(a, b);
    if Gcd(a, b) == 0 {
      var p :| Times(p, 0) == a;
      var q :| Times(q, 0) == b;
    }
  }

  // ----- scaling: multiplying both arguments multiplies the result, whatever the sign

  lemma ProductAtLeast(m: int, k: int)
    requires m > 0 && k > 0
    ensures m * k >= m
  {
    assert m * k == m + m * (k - 1);
  }

  lemma DivisionUnique(n: nat, m: nat, q: nat, r: nat)
    requires n == m * q + r && r < m
    ensures n / m == q && n % m == r
  {
    var q', r' := n / m, n % m;
    assert n == m * q' + r';
    assert m * (q - q') == r' - r && m * (q' - q) == r - r';
    if q > q' {
      ProductAtLeast(m, q - q');
    } else if q' > q {
      ProductAtLeast(m, q' - q);
    }
  }

  lemma ScaledDivision(n: nat, m: nat, k: nat, n': nat, m': nat)
    requires m > 0 && k > 0 && n' == k * n && m' == k * m
    ensures m' > 0 && n' / m' == n / m && n' % m' == k * (n % m)
  {
    var q, r := n / m, n % m;
    assert n == m * q + r;
    assert k * n == (k * m) * q + k * r;
    assert k * m - k * r == k * (m - r);
    ProductAtLeast(k, m - r);
    DivisionUnique(n', m', q, k * r);
  }

  lemma AbsProduct(k: int, n: int)
    ensures Abs(k * n) == Abs(k) * Abs(n)
    ensures k != 0 && n != 0 ==> k * n != 0 && ((k * n < 0) <==> ((k < 0) != (n < 0)))
  {
    if k < 0 {
      if n < 0 { assert k * n == -k * -n; } else { assert k * n == -(-k * n); }
    } else if n < 0 {
      assert k * n == -(k * -n);
    }
    if k > 0 && n > 0 { ProductAtLeast(k, n); }
    if k < 0 && n > 0 { ProductAtLeast(-k, n); }
    if k > 0 && n < 0 { ProductAtLeast(k, -n); }
    if k < 0 && n < 0 { ProductAtLeast(-k, -n); }
  }

  /** The signs of a scaled division, without its magnitudes. */
  lemma ScaledSigns(k: int, b: int, a: int, b': int, a': int, q: nat, km: int)
    requires a != 0 && a' != 0 && k != 0
    requires (a' < 0) == ((k < 0) != (a < 0))
    requires if b == 0 then b' == 0 && q == 0 && km == 0 else b' != 0 && (b' < 0) == ((k < 0) != (b < 0))
    requires Abs(b) / Abs(a) == q && Abs(b') / Abs(a') == q
    requires Abs(b') % Abs(a') == if k < 0 then -km else km
    ensures Remainder(b', a') == if b < 0 then -km else km
    ensures Quotient(b', a') == Quotient(b, a)
  {
  }

  lemma ScaledRemainder(k: int, b: int, a: int)
    requires k != 0 && a != 0
    ensures k * a != 0
    ensures Remainder(k * b, k * a) == k * Remainder(b, a)
    ensures Quotient(k * b, k * a) == Quotient(b, a)
  {
    AbsProduct(k, b);
    AbsProduct(k, a);
    ScaledProducts(k, b, a, k * b, k * a);
  }

  lemma ScaledProducts(k: int, b: int, a: int, b': int, a': int)
    requires k != 0 && a != 0 && a' != 0
    requires Abs(b') == Abs(k) * Abs(b) && Abs(a') == Abs(k) * Abs(a)
    requires (a' < 0) == ((k < 0) != (a < 0))
    requires if b == 0 then b' == 0 else b' != 0 && (b' < 0) == ((k < 0) != (b < 0))
    ensures Remainder(b', a') == k * Remainder(b, a)
    ensures Quotient(b', a') == Quotient(b, a)
  {
    ScaledDivision(Abs(b), Abs(a), Abs(k), Abs(b'), Abs(a'));
    var q, r := Abs(b) / Abs(a), Abs(b) % Abs(a);
    SignedProduct(k, r);
    if b == 0 {
      ZeroDivided(Abs(a));
      ZeroProduct(k, r);
    }
    ScaledSigns(k, b, a, b', a', q, k * r);
  }

  lemma ZeroProduct(k: int, n: int)
    ensures n == 0 ==> k * n == 0
  {
  }

  lemma ZeroDivided(m: nat)
    requires m > 0
    ensures 0 / m == 0 && 0 % m == 0
  {
    DivisionUnique(0, m, 0, 0);
  }

  /** For every `k`, zero and negative ones included. */
  lemma {:induction false} GcdScales(k: int, a: int, b: int)
    ensures Gcd(k * a, k * b) == k * Gcd(a, b)
    decreases Abs(a)
  {
    if k == 0 || a == 0 {
      assert k * a == 0;
    } else {
      ScaledRemainder(k, b, a);
      GcdScales(k, Remainder(b, a), a);
    }
  }

  // ----- lowest terms, and one form for each rational

  lemma ExactQuotient(n: int, g: int)
    requires g != 0 && Divides(g, n)
    ensures g * Quotient(n, g) == n
  {
    var p :| Times(p, g) == n;
    ScaledRemainder(g, p, 1);
    assert g * p == n && g * 1 == g;
    DivisionIdentity(p, 1);
    DivisionIdentity(n, g);
    assert Remainder(p, 1) == 0;
  }

  lemma LowestParts(n: int, d: int, g: int, p: int, q: int)
    requires g == Gcd(n, d) && g != 0 && p == Quotient(n, g) && q == Quotient(d, g)
    ensures g * p == n && g * q == d && Gcd(p, q) == 1
  {
    GcdDivides(n, d);
    ExactQuotient(n, g);
    ExactQuotient(d, g);
    GcdScales(g, p, q);
    Cancel(g, Gcd(p, q), 1);
  }

  lemma Regroup(a: int, p: int, b: int, q: int)
    ensures (a * p) * (b * q) == (a * b) * (p * q)
  {
    calc {
      (a * p) * (b * q);
      a * (p * (b * q));
      { assert p * (b * q) == b * (p * q); }
      a * (b * (p * q));
      (a * b) * (p * q);
    }
  }

  /** A fraction other than 0/0 is its simplified form scaled by the GCD, and that form is in lowest
      terms: its own GCD is 1. */
  lemma SimplifiedLowest(f: Fraction)
    ensures Simplified(f).None? <==> f == Fraction(0, 0)
    ensures Simplified(f).Some? ==>
              var s := Simplified(f).value;
              && Gcd(f.num, f.den) * s.num == f.num && Gcd(f.num, f.den) * s.den == f.den
              && Gcd(s.num, s.den) == 1
              && s.num * f.den == f.num * s.den
  {
    GcdZero(f.num, f.den);
    var g := Gcd(f.num, f.den);
    if g != 0 {
      var p, q := Quotient(f.num, g), Quotient(f.den, g);
      LowestParts(f.num, f.den, g, p, q);
      Regroup(1, p, g, q);
      Regroup(g, p, 1, q);
    }
  }

  lemma Cancel(c: int, x: int, y: int)
    requires c != 0 && c * x == c * y
    ensures x == y
  {
    assert c * (x - y) == 0;
    if x != y {
      AbsProduct(c, x - y);
    }
  }

  lemma ScaledLowest(k: int, p: int, q: int, x: int, y: int)
    requires Gcd(p, q) == 1 && x == k * p && y == k * q
    ensures Gcd(x, y) == k
  {
    GcdScales(k, p, q);
  }

  lemma Commute(a: int, b: int)
    ensures a * b == b * a
  {
  }

  /** Fractions in lowest terms with equal cross products are identical. */
  lemma LowestUnique(s: Fraction, t: Fraction)
    requires Gcd(s.num, s.den) == 1 && Gcd(t.num, t.den) == 1
    requires s.num * t.den == t.num * s.den
    ensures s == t
  {
    var a, b, c, d := s.num, s.den, t.num, t.den;
    Commute(a, c);
    ScaledLowest(a, c, d, a * c, a * d);
    ScaledLowest(c, a, b, a * c, a * d);
    Commute(b, c);
    Commute(a, d);
    Commute(b, d);
    ScaledLowest(b, c, d, b * c, b * d);
    ScaledLowest(d, a, b, b * c, b * d);
  }

  /** Canonical form: two fractions are equal as rationals exactly when they simplify to the same
      fraction.  No sign is asked for: any fractions but 0/0, infinities included. */
  lemma CanonicalForm(f: Fraction, g: Fraction)
    requires f != Fraction(0, 0) && g != Fraction(0, 0)
    ensures f.num * g.den == g.num * f.den <==> Simplified(f) == Simplified(g)
  {
    SimplifiedLowest(f);
    SimplifiedLowest(g);
    var s, t := Simplified(f).value, Simplified(g).value;
    var a, b := Gcd(f.num, f.den), Gcd(g.num, g.den);
    GcdZero(f.num, f.den);
    GcdZero(g.num, g.den);
    CrossProducts(f, s, a, g, t, b);
    if s.num * t.den == t.num * s.den {
      LowestUnique(s, t);
    }
  }

  /** Scaling both fractions does not change whether their cross products agree. */
  lemma CrossProducts(f: Fraction, s: Fraction, a: int, g: Fraction, t: Fraction, b: int)
    requires a != 0 && b != 0
    requires f == Fraction(a * s.num, a * s.den) && g == Fraction(b * t.num, b * t.den)
    ensures f.num * g.den == g.num * f.den <==> s.num * t.den == t.num * s.den
  {
    Regroup(a, s.num, b, t.den);
    Regroup(b, t.num, a, s.den);
    AbsProduct(a, b);
    assert b * a == a * b;
    if f.num * g.den == g.num * f.den {
      Cancel(a * b, s.num * t.den, t.num * s.den);
    }
  }

  /** Scaling a fraction by anything but zero does not change its simplified form. */
  lemma ScalarMultiplicationSimplifies(n: int, f: Fraction)
    ensures Simplified(ScalarMultiplication(n, f)) == Simplified(f) <==> n != 0 || f == Fraction(0, 0)
  {
    SimplifiedLowest(f);
    SimplifiedLowest(ScalarMultiplication(n, f));
    ZeroProduct(n, 0);
    if n != 0 && f != Fraction(0, 0) {
      AbsProduct(n, f.num);
      AbsProduct(n, f.den);
      Regroup(n, f.num, 1, f.den);
      Regroup(1, f.num, n, f.den);
      CanonicalForm(ScalarMultiplication(n, f), f);
    }
  }

  /** What scaling does to a fraction: its GCD is multiplied, and its value stays. */
  lemma ScalarMultiplicationScales(n: int, f: Fraction)
    ensures var g := ScalarMultiplication(n, f);
            && Gcd(g.num, g.den) == n * Gcd(f.num, f.den)
            && g.num * f.den == f.num * g.den
  {
    GcdScales(n, f.num, f.den);
    Regroup(n, f.num, 1, f.den);
    Regroup(1, f.num, n, f.den);
  }

  // ----- the sign of the result

  /** How many times the template recurs. */
  function Rounds(a: int, b: int): (r: nat)
    ensures r == 0 <==> a == 0
    decreases Abs(a)
  {
    if a == 0 then 0 else 1 + Rounds(Remainder(b, a), a)
  }

  /** Two rounds at least halve the first argument, ... */
  lemma TwoRoundsHalve(a: int, b: int)
    requires a != 0 && Remainder(b, a) != 0
    ensures 2 * Abs(Remainder(a, Remainder(b, a))) < Abs(a)
  {
    var n, m := Abs(a), Abs(Remainder(b, a));
    SmallRemainder(n, m);
  }

  lemma SmallRemainder(n: nat, m: nat)
    requires 0 < m < n
    ensures 2 * (n % m) < n
  {
    var q := n / m;
    assert n == m * q + n % m;
    assert q > 0;
    ProductAtLeast(m, q);
  }

  /** ... so the templates recur at most 2 log2 |a| + 1 times. */
  lemma {:induction false} RoundsBound(a: int, b: int)
    requires a != 0
    ensures Words.Pow2(Rounds(a, b) / 2) <= Abs(a)
    decreases Abs(a)
  {
    assert Words.Pow2(0) == 1 && Words.Pow2(1) == 2;
    var r1 := Remainder(b, a);
    if r1 != 0 {
      var r2 := Remainder(a, r1);
      assert Rounds(a, b) == 2 + Rounds(r2, r1);
      TwoRoundsHalve(a, b);
      if r2 != 0 {
        RoundsBound(r2, r1);
      }
    }
  }

  /** Signs do not change the number of rounds. */
  lemma {:induction false} RoundsOfMagnitudes(a: int, b: int)
    ensures Rounds(a, b) == Rounds(Abs(a), Abs(b))
    decreases Abs(a)
  {
    if a != 0 {
      var r := Remainder(b, a);
      assert Abs(r) == Remainder(Abs(b), Abs(a));
      RoundsOfMagnitudes(r, a);
    }
  }

  /** The result has the sign of the first argument after an odd number of rounds, of the second after
      an even number. */
  lemma {:induction false} GcdSign(a: int, b: int)
    ensures Rounds(a, b) % 2 == 1 ==> (Gcd(a, b) < 0 <==> a < 0)
    ensures Rounds(a, b) % 2 == 0 ==> (Gcd(a, b) < 0 <==> b < 0)
    decreases Abs(a)
  {
    if a != 0 {
      var r := Remainder(b, a);
      GcdSign(r, a);
    }
  }

  /** `simplified` leaves a negative denominator exactly when the fraction is negative and Euclid's
      algorithm on the two magnitudes takes an odd number of rounds, for example in -1/2. */
  lemma SimplifiedDenominatorSign(f: Fraction)
    requires f != Fraction(0, 0)
    ensures Simplified(f).Some?
    ensures Simplified(f).value.den < 0 <==>
            f.den != 0 && (f.num < 0) != (f.den < 0) && Rounds(Abs(f.num), Abs(f.den)) % 2 == 1
  {
    SimplifiedLowest(f);
    GcdSign(f.num, f.den);
    RoundsOfMagnitudes(f.num, f.den);
    var g, q := Gcd(f.num, f.den), Simplified(f).value.den;
    assert g * q == f.den;
    AbsProduct(g, q);
    ZeroProduct(g, q);
  }

  lemma MinusOneHalf()
    ensures Simplified(Fraction(-1, 2)) == Some(Fraction(1, -2))
    ensures Simplified(Fraction(1, -2)) == Some(Fraction(1, -2))
  {
    assert Remainder(2, -1) == 0 && Gcd(0, -1) == -1 && Gcd(-1, 2) == -1;
    assert Remainder(-2, 1) == 0 && Gcd(0, 1) == 1 && Gcd(1, -2) == 1;
  }
}
