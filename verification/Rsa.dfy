/** The RSA group of the accumulator: n = p * q and the trapdoor phi = (p - 1) * (q - 1). */
module Rsa {
  import opened Arithmetic
  import opened Modular
  import opened Fermat

  /** The primes drawn at setup.  `helpers.rs` never compares them; distinctness is assumed. */
  datatype Key = Key(p: nat, q: nat) {
    ghost predicate Valid() {
      IsPrime(p) && IsPrime(q) && p != q
    }

    function N(): Modulus {
      if p * q >= 2 then p * q else 2
    }

    function Phi(): Modulus {
      if (p - 1) * (q - 1) >= 2 then (p - 1) * (q - 1) else 2
    }

    /** Both primes are safe: p = 2p' + 1 and q = 2q' + 1 with p', q' prime. */
    ghost predicate Safe() {
      Valid() && p % 2 == 1 && q % 2 == 1 && IsPrime(HalfP()) && IsPrime(HalfQ())
    }

    function HalfP(): nat { p / 2 }

    function HalfQ(): nat { q / 2 }

    function MinHalf(): nat {
      if HalfP() <= HalfQ() then HalfP() else HalfQ()
    }
  }

  lemma KeyNumbers(k: Key)
    requires k.Valid()
    ensures k.N() == k.p * k.q
    ensures k.Phi() == (k.p - 1) * (k.q - 1)
  {
    ProductAtLeastTwo(k.p, k.q);
    if k.q > 2 {
      ProductAtLeastTwo(k.p - 1, k.q - 1);
    } else {
      ProductAtLeastTwo(k.q - 1, k.p - 1);
      MulCommutative(k.p - 1, k.q - 1);
    }
  }

  // ----- Chinese remaindering -----

  lemma RemainderOfRemainder(x: int, p: nat, q: nat)
    requires p > 0 && q > 0 && p * q > 0
    ensures (x % (p * q)) % p == x % p
  {
    var k := x / (p * q);
    assert x == (p * q) * k + x % (p * q);
    Associate(p, q, k);
    AddMultiple(x % (p * q), q * k, p);
  }

  /** Two residues that agree modulo both primes are equal. */
  lemma ChineseRemainder(k: Key, a: int, b: int)
    requires k.Valid() && Residue(a, k.N()) && Residue(b, k.N())
    requires a % k.p == b % k.p && a % k.q == b % k.q
    ensures a == b
  {
    KeyNumbers(k);
    SameRemainder(a, b, k.p);
    SameRemainder(a, b, k.q);
    DistinctPrimesAreCoprime(k.q, k.p);
    CoprimeDivisorsMultiply(k.p, k.q, a - b);
    SmallMultipleIsZero(a - b, k.p * k.q);
  }

  lemma CoprimeDivisorsMultiply(p: nat, q: nat, x: int)
    requires p > 0 && q > 0 && p * q > 0 && Gcd(q, p) == 1
    requires Divides(p, x) && Divides(q, x)
    ensures Divides(p * q, x)
  {
    hide Gcd;
    var l := DivideOut(p, x);
    CoprimeDivisor(q, p, l);
    var j := DivideOut(q, l);
    Associate(p, q, j);
    MultipleIsDivisible(p * q, j);
  }

  lemma SmallMultipleIsZero(x: int, n: int)
    requires n > 0 && Divides(n, x) && -n < x < n
    ensures x == 0
  {}

  lemma SameRemainder(a: int, b: int, n: nat)
    requires n > 0 && a % n == b % n
    ensures Divides(n, a - b)
  {
    var d := a / n - b / n;
    assert a - b == n * d by {
      assert n * d == n * (a / n) - n * (b / n);
    }
    MultipleIsDivisible(n, d);
  }

  /** Reducing a power modulo n by one of its primes gives the power modulo that prime. */
  lemma {:induction false} PowerModPrime(b: int, e: nat, n: Modulus, p: Modulus, q: nat)
    requires n == p * q && q > 0
    ensures NatPow(b, e, n) % p == NatPow(b, e, p)
  {
    if e == 0 {
      SmallRemainder(1, p);
    } else {
      var x := NatPow(b, e - 1, n);
      PowerModPrime(b, e - 1, n, p, q);
      RemainderOfRemainder(b * x, p, q);
      MulReduced(b, x, p);
    }
  }

  // ----- Euler for n = p * q -----

  /** a^(1 + m*phi) = a for every residue a of n, units or not. */
  lemma EulerFixesEveryResidue(k: Key, a: nat, m: nat)
    requires k.Valid() && Residue(a, k.N())
    ensures 1 + m * k.Phi() >= 0
    ensures NatPow(a, 1 + m * k.Phi(), k.N()) == a
  {
    hide NatPow, Key.N, Key.Phi;
    KeyNumbers(k);
    var n := k.N();
    var r := NatPow(a, 1 + m * k.Phi(), n);
    EulerModPrime(a, m, n, k.p, k.q);
    MulCommutative(k.p, k.q);
    MulCommutative(k.p - 1, k.q - 1);
    EulerModPrime(a, m, n, k.q, k.p);
    ChineseRemainder(k, r, a);
  }

  lemma EulerModPrime(a: nat, m: nat, n: Modulus, p: Modulus, q: nat)
    requires IsPrime(p) && q > 0 && n == p * q
    ensures m * ((p - 1) * (q - 1)) >= 0
    ensures NatPow(a, 1 + m * ((p - 1) * (q - 1)), n) % p == a % p
  {
    hide NatPow, IsPrime;
    var l: nat := m * (q - 1);
    Associate(m, q - 1, p - 1);
    MulCommutative(q - 1, p - 1);
    FermatFixesEveryResidue(a, l, p);
    PowerModPrime(a, 1 + l * (p - 1), n, p, q);
  }

  /** a^(phi * j) = 1 for units, for every integer j. */
  lemma UnitPowPhi(k: Key, a: int, j: int)
    requires k.Valid() && Unit(a, k.N())
    ensures ModPow(a, k.Phi() * j, k.N()) == 1
  {
    hide ModMul, Unit, ModPow;
    var n, phi := k.N(), k.Phi();
    EulerFixesEveryResidue(k, a % n, 1);
    NatPowReduced(a, 1 + phi, n);
    PowNat(a, 1 + phi, n);
    PowStep(a, phi, n);
    MulOne(a, n);
    Cancel(a, ModPow(a, phi, n), 1, n);
    PowMul(a, phi, j, n);
    OnePow(j, n);
  }
}
