/** Integer facts the accumulator rests on: remainders, divisibility, greatest common
    divisors with their Bezout coefficients, and primes.  `/` and `%` are only ever used
    with a positive divisor, where Dafny, Rust and BigNumber's `nmod` agree on the range. */
module Arithmetic {

  // ----- remainders -----

  /** A remainder is fixed by its range and one multiple of the divisor. */
  lemma RemainderIsUnique(x: int, q: int, r: int, n: int)
    requires n > 0 && 0 <= r < n && x == n * q + r
    ensures x % n == r && x / n == q
  {
    var d := x / n - q;
    assert n * d == r - x % n by {
      assert x == n * (x / n) + x % n;
      assert n * d == n * (x / n) - n * q;
    }
    if d >= 1 {
      MulAtLeast(n, d);
      assert false;
    } else if d <= -1 {
      MulAtLeast(n, -d);
      assert false;
    }
  }

  lemma MulAtLeast(n: int, d: int)
    requires n > 0 && d >= 1
    ensures n * d >= n
  {
    assert n * d == n + n * (d - 1);
    assert n * (d - 1) >= 0;
  }

  lemma ProductAtLeastTwo(a: int, b: int)
    requires a >= 1 && b >= 2
    ensures a * b >= 2
  {
    MulAtLeast(b, a);
    MulCommutative(a, b);
  }

  lemma MulCommutative(a: int, b: int)
    ensures a * b == b * a
  {}

  lemma AddMultiple(x: int, k: int, n: int)
    requires n > 0
    ensures (x + n * k) % n == x % n
  {
    assert x == n * (x / n) + x % n;
    assert x + n * k == n * (x / n + k) + x % n by {
      assert n * (x / n + k) == n * (x / n) + n * k;
    }
    RemainderIsUnique(x + n * k, x / n + k, x % n, n);
  }

  lemma SmallRemainder(x: int, n: int)
    requires 0 <= x < n
    ensures x % n == x
  {
    RemainderIsUnique(x, 0, x, n);
  }

  lemma MulRemainderLeft(x: int, y: int, n: int)
    requires n > 0
    ensures ((x % n) * y) % n == (x * y) % n
  {
    var q := x / n;
    assert x == n * q + x % n;
    assert (x % n) * y + n * (q * y) == x * y by {
      assert x * y == (n * q + x % n) * y == (n * q) * y + (x % n) * y;
      assert (n * q) * y == n * (q * y);
    }
    AddMultiple((x % n) * y, q * y, n);
  }

  // ----- divisibility -----

  predicate Divides(d: int, x: int)
    requires d > 0
  {
    x % d == 0
  }

  lemma MultipleIsDivisible(d: int, k: int)
    requires d > 0
    ensures Divides(d, d * k)
  {
    RemainderIsUnique(d * k, k, 0, d);
  }

  lemma DivideOut(d: int, x: int) returns (k: int)
    requires d > 0 && Divides(d, x)
    ensures x == d * k
  {
    k := x / d;
  }

  /** A divisor of two numbers divides every integer combination of them. */
  lemma DividesCombination(d: int, x: int, y: int, s: int, t: int)
    requires d > 0 && Divides(d, x) && Divides(d, y)
    ensures Divides(d, s * x + t * y)
  {
    var k := DivideOut(d, x);
    var l := DivideOut(d, y);
    assert s * x + t * y == d * (s * k + t * l) by {
      assert s * (d * k) == d * (s * k);
      assert t * (d * l) == d * (t * l);
      assert d * (s * k + t * l) == d * (s * k) + d * (t * l);
    }
    MultipleIsDivisible(d, s * k + t * l);
  }

  lemma DivisorAtMost(d: int, x: int)
    requires d > 0 && x > 0 && Divides(d, x)
    ensures d <= x
  {
    if d > x {
      SmallRemainder(x, d);
    }
  }

  // ----- greatest common divisors -----

  function Gcd(x: nat, y: nat): nat
    decreases y
  {
    if y == 0 then x else Gcd(y, x % y)
  }

  lemma {:induction false} GcdDivides(x: nat, y: nat)
    requires x > 0 || y > 0
    ensures Gcd(x, y) > 0 && Divides(Gcd(x, y), x) && Divides(Gcd(x, y), y)
    decreases y
  {
    if y == 0 {
      assert x == x * 1;
      MultipleIsDivisible(x, 1);
      MultipleIsDivisible(x, 0);
      assert x * 0 == 0;
    } else {
      GcdDivides(y, x % y);
      DividesCombination(Gcd(x, y), y, x % y, x / y, 1);
      assert (x / y) * y + 1 * (x % y) == x;
    }
  }

  lemma {:induction false} Bezout(x: nat, y: nat) returns (s: int, t: int)
    ensures s * x + t * y == Gcd(x, y)
    decreases y
  {
    if y == 0 {
      s, t := 1, 0;
    } else {
      var s', t' := Bezout(y, x % y);
      s, t := t', s' - t' * (x / y);
      BezoutStep(x, y, s', t');
    }
  }

  lemma BezoutStep(x: nat, y: nat, s: int, t: int)
    requires y > 0
    ensures t * x + (s - t * (x / y)) * y == s * y + t * (x % y)
  {}

  /** Every Bezout pair of value 1 certifies coprimality. */
  lemma CombinationOneIsCoprime(x: nat, y: nat, s: int, t: int)
    requires s * x + t * y == 1
    ensures Gcd(x, y) == 1
  {
    if x == 0 && y == 0 {
      assert false;
    } else {
      GcdDivides(x, y);
      DividesCombination(Gcd(x, y), x, y, s, t);
      DivisorAtMost(Gcd(x, y), 1);
    }
  }

  lemma GcdCommutes(x: nat, y: nat)
    ensures Gcd(x, y) == Gcd(y, x)
  {
    if x > 0 || y > 0 {
      GcdAtMostSwapped(x, y);
      GcdAtMostSwapped(y, x);
    }
  }

  lemma GcdAtMostSwapped(x: nat, y: nat)
    requires x > 0 || y > 0
    ensures 0 < Gcd(x, y) <= Gcd(y, x)
  {
    GcdDivides(x, y);
    GcdDivides(y, x);
    var s, t := Bezout(y, x);
    DividesCombination(Gcd(x, y), y, x, s, t);
    DivisorAtMost(Gcd(x, y), Gcd(y, x));
  }

  lemma ProductOfCombinations(x: int, y: int, z: int, s: int, t: int, s': int, t': int)
    requires s * x + t * y == 1 && s' * x + t' * z == 1
    ensures (s + (t * y) * s') * x + (t * t') * (y * z) == 1
  {}

  lemma Distribute(a: int, b: int, c: int)
    ensures a * (b + c) == a * b + a * c == (b + c) * a
  {}

  lemma Associate(a: int, b: int, c: int)
    ensures (a * b) * c == a * (b * c)
  {}

  /** A number coprime to two others is coprime to their product. */
  lemma CoprimeToProduct(x: nat, y: nat, z: nat)
    requires Gcd(x, y) == 1 && Gcd(x, z) == 1
    ensures Gcd(x, y * z) == 1
  {
    hide Gcd;
    var s, t := Bezout(x, y);
    var s', t' := Bezout(x, z);
    ProductOfCombinations(x, y, z, s, t, s', t');
    CombinationOneIsCoprime(x, y * z, s + (t * y) * s', t * t');
  }

  /** Euclid's lemma in its coprime form. */
  lemma CoprimeDivisor(d: nat, x: nat, y: int)
    requires d > 0 && Gcd(d, x) == 1 && Divides(d, x * y)
    ensures Divides(d, y)
  {
    hide Gcd;
    var s, t := Bezout(d, x);
    var k := DivideOut(d, x * y);
    CombinationTimes(d, x, y, s, t, k);
    MultipleIsDivisible(d, s * y + t * k);
  }

  lemma CombinationTimes(d: int, x: int, y: int, s: int, t: int, k: int)
    requires s * d + t * x == 1 && x * y == d * k
    ensures y == d * (s * y + t * k)
  {}

  // ----- primes -----

  predicate IsPrime(p: int) {
    p >= 2 && forall d | 1 < d < p :: !Divides(d, p)
  }

  /** A prime is coprime to everything it does not divide. */
  lemma PrimeCoprime(p: nat, x: nat)
    requires IsPrime(p)
    ensures !Divides(p, x) <==> Gcd(p, x) == 1
  {
    GcdDivides(p, x);
    DivisorAtMost(Gcd(p, x), p);
    if Gcd(p, x) == 1 && Divides(p, x) {
      var s, t := Bezout(p, x);
      MultipleIsDivisible(p, 1);
      assert p * 1 == p;
      DividesCombination(p, p, x, s, t);
      DivisorAtMost(p, 1);
    }
  }

  lemma SmallerThanPrimeIsCoprime(p: nat, x: nat)
    requires IsPrime(p) && 0 < x < p
    ensures Gcd(p, x) == 1
  {
    SmallRemainder(x, p);
    PrimeCoprime(p, x);
  }

  lemma DistinctPrimesAreCoprime(p: nat, q: nat)
    requires IsPrime(p) && IsPrime(q) && p != q
    ensures Gcd(p, q) == 1
  {
    PrimeCoprime(p, q);
    if Divides(p, q) {
      DivisorAtMost(p, q);
      assert false;
    }
  }

  /** A prime divides a product only if it divides a factor. */
  lemma PrimeProduct(p: nat, x: int, y: int)
    requires IsPrime(p) && !Divides(p, x) && !Divides(p, y)
    ensures !Divides(p, x * y)
  {
    hide Gcd, Divides;
    if x >= 0 {
      PrimeProductNat(p, x, y);
    } else {
      NegationDivisible(p, x);
      PrimeProductNat(p, -x, y);
      NegationDivisible(p, x * y);
      NegatedProduct(x, y);
    }
  }

  lemma NegatedProduct(a: int, b: int)
    ensures a * -b == -a * b == -(a * b)
  {}

  lemma PrimeProductNat(p: nat, x: nat, y: int)
    requires IsPrime(p) && !Divides(p, x) && !Divides(p, y)
    ensures !Divides(p, x * y)
  {
    hide Gcd, Divides;
    PrimeCoprime(p, x);
    if Divides(p, x * y) {
      CoprimeDivisor(p, x, y);
    }
  }

  lemma NegationDivisible(p: nat, x: int)
    requires p > 0
    ensures Divides(p, x) <==> Divides(p, -x)
  {
    if Divides(p, x) {
      DividesCombination(p, x, x, -1, 0);
    }
    if Divides(p, -x) {
      DividesCombination(p, -x, -x, -1, 0);
    }
  }

  // ----- the extended Euclidean algorithm -----

  /** The loop state of the algorithm: two remainders with their combinations of x and y.
      The coefficients of y have opposite signs, told by `up`, and their cross product with
      the remainders is x up to sign, which bounds them. */
  ghost predicate EuclidState(x: nat, y: nat, r: nat, a: int, b: int, r': nat, s: int, t: int, up: bool) {
    && Gcd(r, r') == Gcd(x, y)
    && a * x + b * y == r
    && s * x + t * y == r'
    && t * r - b * r' == (if up then x else -(x as int))
    && (if up then b <= 0 <= t else t <= 0 <= b)
    && (-1 <= b <= 1 || if up then -b <= t else b <= -t)
    && (r >= r' || (b == 0 && t == 1))
  }

  lemma EuclidStep(x: nat, y: nat, r: nat, a: int, b: int, r': nat, s: int, t: int, up: bool)
    requires EuclidState(x, y, r, a, b, r', s, t, up) && r' > 0
    ensures var q := r / r';
      EuclidState(x, y, r', s, t, r % r', a - q * s, b - q * t, !up)
  {
    hide Gcd;
    var q := r / r';
    GcdStep(r, r');
    CombinationStep(x, y, a, b, r, s, t, r', q);
    CrossStep(b, r, t, r', q);
    CoefficientGrows(b, t, q, up);
    if r >= r' {
      QuotientPositive(r, r');
    }
  }

  lemma EuclidEnd(x: nat, y: nat, r: nat, a: int, b: int, s: int, t: int, up: bool)
    requires EuclidState(x, y, r, a, b, 0, s, t, up)
    ensures r == Gcd(x, y) && a * x + b * y == r
    ensures x > 0 ==> -(x as int) <= b <= x
  {
    if x > 0 {
      FinalCoefficient(t, r, x, up);
    }
  }

  /** The loop states for a proper divisor x of y: two steps reach the pair (1, 0). */
  ghost predicate DivisorState(x: nat, y: nat, r: nat, a: int, b: int, r': nat, s: int, t: int) {
    || (r == x && r' == y && a == 1 && b == 0 && s == 0 && t == 1)
    || (r == y && r' == x && a == 0 && b == 1 && s == 1 && t == 0)
    || (r' == 0 && a == 1 && b == 0)
  }

  lemma DivisorStep(x: nat, y: nat, r: nat, a: int, b: int, r': nat, s: int, t: int)
    requires 0 < x < y && Divides(x, y) && DivisorState(x, y, r, a, b, r', s, t) && r' > 0
    ensures var q := r / r';
      DivisorState(x, y, r', s, t, r % r', a - q * s, b - q * t)
  {
    SmallRemainder(x, y);
    RemainderIsUnique(x, 0, x, y);
  }

  /** `BigNumber::extended_gcd`: the greatest common divisor with Bezout coefficients.  The
      second coefficient is no larger than the first number; a proper divisor of the second
      number gets the pair (1, 0). */
  method ExtendedGcd(x: nat, y: nat) returns (g: nat, a: int, b: int)
    ensures g == Gcd(x, y)
    ensures a * x + b * y == g
    ensures x > 0 ==> -(x as int) <= b <= x
    ensures 0 < x < y && Divides(x, y) ==> a == 1 && b == 0
  {
    hide EuclidState, DivisorState, Gcd, Divides;
    var r: nat, r': nat := x, y;
    var s: int, t: int := 0, 1;
    ghost var up := true;
    a, b := 1, 0;
    EuclidStart(x, y);
    while r' != 0
      invariant EuclidState(x, y, r, a, b, r', s, t, up)
      invariant 0 < x < y && Divides(x, y) ==> DivisorState(x, y, r, a, b, r', s, t)
      decreases r'
    {
      EuclidStep(x, y, r, a, b, r', s, t, up);
      if 0 < x < y && Divides(x, y) {
        DivisorStep(x, y, r, a, b, r', s, t);
      }
      var q := r / r';
      r, r' := r', r % r';
      a, s := s, a - q * s;
      b, t := t, b - q * t;
      up := !up;
    }
    EuclidEnd(x, y, r, a, b, s, t, up);
    if 0 < x < y && Divides(x, y) {
      DivisorEnd(x, y, r, a, b, s, t);
    }
    g := r;
  }

  lemma DivisorEnd(x: nat, y: nat, r: nat, a: int, b: int, s: int, t: int)
    requires 0 < x < y && DivisorState(x, y, r, a, b, 0, s, t)
    ensures a == 1 && b == 0
  {}

  lemma EuclidStart(x: nat, y: nat)
    ensures EuclidState(x, y, x, 1, 0, y, 0, 1, true)
    ensures DivisorState(x, y, x, 1, 0, y, 0, 1)
  {}

  lemma GcdStep(x: nat, y: nat)
    requires y > 0
    ensures Gcd(x, y) == Gcd(y, x % y)
  {}

  lemma QuotientPositive(r: nat, r': nat)
    requires r >= r' > 0
    ensures r / r' >= 1
  {}

  /** The cross product of coefficients and remainders only changes sign. */
  lemma CrossStep(b: int, r: int, t: int, r': int, q: int)
    requires r' > 0 && q == r / r'
    ensures (b - q * t) * r' - t * (r % r') == -(t * r - b * r')
  {
    assert r == q * r' + r % r';
    Distribute(t, q * r', r % r');
    Associate(t, q, r');
    Distribute(r', b, -(q * t));
  }

  lemma CoefficientGrows(b: int, t: int, q: nat, up: bool)
    requires if up then b <= 0 <= t else t <= 0 <= b
    ensures if up then b - q * t <= 0 else b - q * t >= 0
    ensures q >= 1 ==> if up then t <= -(b - q * t) else -t <= b - q * t
  {}

  lemma FinalCoefficient(t: int, r: nat, x: nat, up: bool)
    requires x > 0 && t * r == if up then x else -(x as int)
    requires if up then 0 <= t else t <= 0
    ensures if up then t <= x else -t <= x
  {}

  lemma CombinationStep(x: int, y: int, a: int, b: int, r: int, s: int, t: int, r': int, q: int)
    requires r' > 0 && q == r / r'
    requires a * x + b * y == r && s * x + t * y == r'
    ensures (a - q * s) * x + (b - q * t) * y == r % r'
  {
    calc {
      (a - q * s) * x + (b - q * t) * y;
      { assert (a - q * s) * x == a * x - q * (s * x); assert (b - q * t) * y == b * y - q * (t * y); }
      r - (q * (s * x) + q * (t * y));
      { assert q * (s * x) + q * (t * y) == q * (s * x + t * y); }
      r - q * r';
      r % r';
    }
  }
}
