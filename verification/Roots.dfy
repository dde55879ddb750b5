/** x-th roots modulo n taken with the trapdoor, and what safe primes add: orders of
    quadratic residues. */
module Roots {
  import opened Arithmetic
  import opened Modular
  import opened Fermat
  import opened Rsa

  /** v^(1/x): the value raised to the inverse of x modulo phi. */
  function Root(k: Key, v: int, x: int): (r: int)
    requires Unit(x, k.Phi())
    ensures Residue(r, k.N())
  {
    ModPow(v, Inv(x, k.Phi()), k.N())
  }

  /** x times its trapdoor inverse is 1 plus a multiple of phi. */
  lemma TrapdoorProduct(k: Key, x: int) returns (m: int)
    requires Unit(x, k.Phi())
    ensures x * Inv(x, k.Phi()) == 1 + m * k.Phi()
    ensures x >= 0 ==> m >= 0
  {
    var e := x * Inv(x, k.Phi());
    m := e / k.Phi();
    assert e == k.Phi() * m + e % k.Phi();
    MulCommutative(k.Phi(), m);
  }

  /** Raising to x and to its trapdoor inverse is the identity on all residues. */
  lemma PowInverseExponent(k: Key, a: int, x: nat)
    requires k.Valid() && Unit(x, k.Phi()) && Residue(a, k.N())
    ensures ModPow(a, x * Inv(x, k.Phi()), k.N()) == a
  {
    hide ModMul, Unit, Inv, NatPow, ModPow;
    var m := TrapdoorProduct(k, x);
    EulerFixesEveryResidue(k, a, m);
    PowNat(a, 1 + m * k.Phi(), k.N());
  }

  /** Issuance: the trapdoor root is an x-th root, for non-unit values too. */
  lemma RootIsRoot(k: Key, v: int, x: nat)
    requires k.Valid() && Unit(x, k.Phi()) && Residue(v, k.N())
    ensures ModPow(Root(k, v, x), x, k.N()) == v
  {
    hide ModMul, Unit, NatPow, ModPow;
    var d := Inv(x, k.Phi());
    PowMul(v, d, x, k.N());
    MulCommutative(x, d);
    PowInverseExponent(k, v, x);
  }

  /** There is only one x-th root. */
  lemma RootIsUnique(k: Key, v: int, x: nat, u: int)
    requires k.Valid() && Unit(x, k.Phi()) && Residue(v, k.N()) && Residue(u, k.N())
    ensures ModPow(u, x, k.N()) == v <==> u == Root(k, v, x)
  {
    hide ModMul, Unit, NatPow, ModPow;
    if ModPow(u, x, k.N()) == v {
      PowMul(u, x, Inv(x, k.Phi()), k.N());
      PowInverseExponent(k, u, x);
    }
    RootIsRoot(k, v, x);
  }

  /** Equal d-th powers of units are powers of one residue, d of either sign. */
  lemma UnitRootIsUnique(k: Key, a: int, b: int, d: int)
    requires k.Valid() && Unit(d, k.Phi()) && Unit(a, k.N()) && Unit(b, k.N())
    requires ModPow(a, d, k.N()) == ModPow(b, d, k.N())
    ensures a % k.N() == b % k.N()
  {
    hide ModMul, Unit, NatPow, ModPow, Inv;
    UnitPowInverse(k, a, d);
    UnitPowInverse(k, b, d);
  }

  lemma UnitPowInverse(k: Key, a: int, d: int)
    requires k.Valid() && Unit(d, k.Phi()) && Unit(a, k.N())
    ensures ModPow(ModPow(a, d, k.N()), Inv(d, k.Phi()), k.N()) == a % k.N()
  {
    hide ModMul, Unit, NatPow, ModPow, Inv;
    var m := TrapdoorProduct(k, d);
    PowMul(a, d, Inv(d, k.Phi()), k.N());
    MulCommutative(m, k.Phi());
    PowStep(a, k.Phi() * m, k.N());
    UnitPowPhi(k, a, m);
    MulOne(a, k.N());
  }

  lemma RootOfUnit(k: Key, v: int, x: int)
    requires Unit(x, k.Phi()) && Unit(v, k.N())
    ensures Unit(Root(k, v, x), k.N())
  {
    hide ModMul, Unit, NatPow, ModPow;
    PowUnit(v, Inv(x, k.Phi()), k.N());
  }

  /** Removing x and then y takes the same root as removing x * y. */
  lemma RootOfRoot(k: Key, v: int, x: nat, y: nat)
    requires k.Valid() && Unit(x, k.Phi()) && Unit(y, k.Phi()) && Residue(v, k.N())
    ensures Unit(x * y, k.Phi()) && Root(k, Root(k, v, x), y) == Root(k, v, x * y)
  {
    hide ModMul, Unit, NatPow, ModPow, Root;
    UnitProduct(x, y, k.Phi());
    var r := Root(k, Root(k, v, x), y);
    RootIsRoot(k, Root(k, v, x), y);
    RootIsRoot(k, v, x);
    PowMul(r, y, x, k.N());
    MulCommutative(x, y);
    RootIsUnique(k, v, x * y, r);
  }

  // ----- quadratic residues modulo a product of safe primes -----

  /** `generate_quadratic_residue`: the square of a sampled number. */
  function Square(r: int, n: Modulus): int {
    ModPow(r, 2, n)
  }

  lemma SquareIsProduct(r: int, n: Modulus)
    ensures Square(r, n) == (r * r) % n && Divides(n, r * r - Square(r, n))
  {
    hide ModPow, Unit;
    PowStep(r, 1, n);
    PowOne(r, n);
    MulReduced(r, r, n);
    SmallRemainder((r * r) % n, n);
    SameRemainder(r * r, (r * r) % n, n);
  }

  ghost predicate QuadraticResidue(v: int, n: Modulus) {
    exists r :: Unit(r, n) && v == Square(r, n)
  }

  lemma SquareIsUnit(r: int, n: Modulus)
    requires Unit(r, n)
    ensures Unit(Square(r, n), n) && QuadraticResidue(Square(r, n), n)
  {
    hide Unit, ModMul, ModPow;
    PowUnit(r, 2, n);
  }

  lemma PowerOfQuadraticResidue(v: int, e: int, n: Modulus)
    requires QuadraticResidue(v, n)
    ensures QuadraticResidue(ModPow(v, e, n), n)
  {
    hide Unit, ModMul, ModPow;
    var r :| Unit(r, n) && v == Square(r, n);
    PowUnit(r, e, n);
    PowMul(r, 2, e, n);
    PowMul(r, e, 2, n);
    assert ModPow(v, e, n) == Square(ModPow(r, e, n), n);
  }

  lemma ProductOfQuadraticResidues(v: int, w: int, n: Modulus)
    requires QuadraticResidue(v, n) && QuadraticResidue(w, n)
    ensures QuadraticResidue(ModMul(v, w, n), n)
  {
    hide Unit, ModMul, ModPow;
    var r :| Unit(r, n) && v == Square(r, n);
    var s :| Unit(s, n) && w == Square(s, n);
    UnitProduct(r, s, n);
    PowProduct(r, s, 2, n);
    assert ModMul(v, w, n) == Square(ModMul(r, s, n), n);
  }

  lemma SafeKeyNumbers(k: Key)
    requires k.Safe()
    ensures k.p == 2 * k.HalfP() + 1 && k.q == 2 * k.HalfQ() + 1
    ensures k.Phi() == (2 * k.HalfP()) * (2 * k.HalfQ())
  {}

  /** r^(2 * p' * q') = 1 modulo p, for r prime to p. */
  lemma HalfOrderModPrime(r: nat, p: Modulus, half: nat, m: nat)
    requires IsPrime(p) && p == 2 * half + 1 && !Divides(p, r)
    ensures NatPow(r, (2 * half) * m, p) == 1
  {
    hide ModMul, ModPow, NatPow;
    FermatLittle(r, p);
    PowNat(r, p - 1, p);
    PowMul(r, p - 1, m, p);
    OnePow(m, p);
    PowNat(r, (2 * half) * m, p);
  }

  lemma UnitNotDivisible(k: Key, r: int)
    requires k.Valid() && Unit(r, k.N())
    ensures !Divides(k.p, r) && !Divides(k.q, r)
  {
    KeyNumbers(k);
    var b, n := Inv(r, k.N()), k.N();
    assert r * b == n * (r * b / n) + 1;
    MulCommutative(k.p, k.q);
    NotDivisible(k.p, k.q, r, b, r * b / n);
    NotDivisible(k.q, k.p, r, b, r * b / n);
  }

  lemma NotDivisible(p: nat, q: nat, r: int, b: int, m: int)
    requires p >= 2 && r * b == (p * q) * m + 1
    ensures !Divides(p, r)
  {
    if Divides(p, r) {
      MultipleIsDivisible(p, q * m);
      Associate(p, q, m);
      DividesCombination(p, r, p * (q * m), b, -1);
      assert b * r + (-1) * (p * (q * m)) == 1;
      SmallRemainder(1, p);
    }
  }

  /** The order of a quadratic residue divides p' * q'. */
  lemma QuadraticResidueOrder(k: Key, v: int)
    requires k.Safe() && QuadraticResidue(v, k.N())
    ensures ModPow(v, k.HalfP() * k.HalfQ(), k.N()) == 1
  {
    hide Unit, ModMul, ModPow, NatPow;
    var n, h, i := k.N(), k.HalfP(), k.HalfQ();
    var r0: int :| Unit(r0, n) && v == Square(r0, n);
    var r: int := r0 % n;
    SafeKeyNumbers(k);
    KeyNumbers(k);
    UnitReduced(r0, n);
    UnitNotDivisible(k, r);
    NatPowReduced(r0, 2, n);
    PowNat(r0, 2, n);
    PowNat(r, 2, n);
    PowMul(r, 2, h * i, n);
    var e: nat := 2 * (h * i);
    PowNat(r, e, n);
    assert e == (2 * h) * i == (2 * i) * h by {
      Associate(2, h, i);
      Associate(2, i, h);
      MulCommutative(h, i);
    }
    HalfOrderModPrime(r, k.p, h, i);
    HalfOrderModPrime(r, k.q, i, h);
    PowerModPrime(r, e, n, k.p, k.q);
    MulCommutative(k.p, k.q);
    PowerModPrime(r, e, n, k.q, k.p);
    SmallRemainder(1, k.p);
    SmallRemainder(1, k.q);
    ChineseRemainder(k, NatPow(r, e, n), 1);
  }

  /** No small positive power of a quadratic residue other than 1 is 1. */
  lemma NoSmallOrder(k: Key, v: int, m: nat)
    requires k.Safe() && QuadraticResidue(v, k.N()) && 0 < m < k.MinHalf()
    ensures ModPow(v, m, k.N()) == 1 <==> v == 1
  {
    hide Unit, ModMul, ModPow, NatPow, Gcd, Key.N;
    var n, o := k.N(), k.HalfP() * k.HalfQ();
    if v == 1 {
      OnePow(m, n);
    } else if ModPow(v, m, n) == 1 {
      SmallerThanPrimeIsCoprime(k.HalfP(), m);
      SmallerThanPrimeIsCoprime(k.HalfQ(), m);
      GcdCommutes(k.HalfP(), m);
      GcdCommutes(k.HalfQ(), m);
      CoprimeToProduct(m, k.HalfP(), k.HalfQ());
      QuadraticResidueOrder(k, v);
      TwoTrivialPowers(v, m, o, n);
    }
  }

  /** Small equal powers of quadratic residues are powers of one residue. */
  lemma SmallPowerIsInjective(k: Key, v: int, w: int, m: nat)
    requires k.Safe() && QuadraticResidue(v, k.N()) && QuadraticResidue(w, k.N()) && 0 < m < k.MinHalf()
    requires ModPow(v, m, k.N()) == ModPow(w, m, k.N())
    ensures v == w
  {
    hide Unit, ModMul, ModPow, Key.N, Key.MinHalf, QuadraticResidue;
    var n := k.N();
    QuadraticResidueIsUnit(v, n);
    QuadraticResidueIsUnit(w, n);
    var i := ModPow(w, -1, n);
    PowUnit(w, -1, n);
    PowerOfQuadraticResidue(w, -1, n);
    ProductOfQuadraticResidues(v, i, n);
    PowNegate(w, 1, n);
    PowOne(w, n);
    PowProduct(v, i, m, n);
    PowProduct(w, i, m, n);
    OnePow(m, n);
    NoSmallOrder(k, ModMul(v, i, n), m);
    MulCommutes(v, i, n);
    MulCommutes(w, i, n);
    Cancel(i, v, w, n);
  }

  lemma QuadraticResidueIsUnit(v: int, n: Modulus)
    requires QuadraticResidue(v, n)
    ensures Unit(v, n) && Residue(v, n)
  {
    hide Unit, ModPow;
    var r :| Unit(r, n) && v == Square(r, n);
    SquareIsUnit(r, n);
  }

  /** Two coprime exponents that both give 1 leave only the residue 1. */
  lemma TwoTrivialPowers(v: int, e: nat, f: nat, n: Modulus)
    requires QuadraticResidue(v, n) && Gcd(e, f) == 1
    requires ModPow(v, e, n) == 1 == ModPow(v, f, n)
    ensures v == 1
  {
    hide Unit, ModMul, ModPow, NatPow, Gcd;
    QuadraticResidueIsUnit(v, n);
    var s, t := Bezout(e, f);
    PowMul(v, e, s, n);
    PowMul(v, f, t, n);
    OnePow(s, n);
    OnePow(t, n);
    MulCommutative(e, s);
    MulCommutative(f, t);
    PowAdd(v, s * e, t * f, n);
    PowOne(v, n);
    MulOne(1, n);
  }

  // ----- which elements the trapdoor can invert -----

  /** An odd prime below both p' and q' is coprime to phi = 4 * p' * q'. */
  lemma SmallPrimeIsInvertible(k: Key, x: nat)
    requires k.Safe() && IsPrime(x) && 2 < x < k.MinHalf()
    ensures Unit(x, k.Phi())
  {
    hide Unit, Gcd, Key.Phi;
    SafeKeyNumbers(k);
    assert IsPrime(2);
    DistinctPrimesAreCoprime(x, 2);
    DistinctPrimesAreCoprime(x, k.HalfP());
    DistinctPrimesAreCoprime(x, k.HalfQ());
    CoprimeToProduct(x, 2, k.HalfP());
    CoprimeToProduct(x, 2, k.HalfQ());
    CoprimeToProduct(x, 2 * k.HalfP(), 2 * k.HalfQ());
    UnitIffCoprime(x, k.Phi());
  }
}
