/** Residue arithmetic: the operations of `BigNumber` that the accumulator calls (`modmul`,
    `invert`, `modpow`), and their laws.  Exponents are integers of either sign. */
module Modular {
  import opened Arithmetic
  import opened Options

  /** A modulus: the code only ever reduces modulo n = p * q or modulo phi. */
  type Modulus = n: int | n >= 2 witness 2

  predicate Residue(a: int, n: Modulus) {
    0 <= a < n
  }

  // ----- multiplication -----

  function ModMul(a: int, b: int, n: Modulus): (r: int)
    ensures Residue(r, n)
  {
    (a * b) % n
  }

  lemma MulCommutes(a: int, b: int, n: Modulus)
    ensures ModMul(a, b, n) == ModMul(b, a, n)
  {}

  lemma MulReducedLeft(a: int, b: int, n: Modulus)
    ensures ModMul(a % n, b, n) == ModMul(a, b, n)
  {
    MulRemainderLeft(a, b, n);
  }

  lemma MulReduced(a: int, b: int, n: Modulus)
    ensures ModMul(a % n, b, n) == ModMul(a, b, n) == ModMul(a, b % n, n)
  {
    hide ModMul;
    MulReducedLeft(a, b, n);
    MulReducedLeft(b, a, n);
    MulCommutes(a, b, n);
    MulCommutes(a, b % n, n);
  }

  lemma MulAssociates(a: int, b: int, c: int, n: Modulus)
    ensures ModMul(ModMul(a, b, n), c, n) == ModMul(a, ModMul(b, c, n), n)
  {
    Associate(a, b, c);
    calc {
      ModMul(ModMul(a, b, n), c, n);
      { MulReducedLeft(a * b, c, n); }
      ModMul(a * b, c, n);
      ModMul(a, b * c, n);
      { hide ModMul; MulReduced(a, b * c, n); }
      ModMul(a, (b * c) % n, n);
    }
  }

  lemma MulOne(a: int, n: Modulus)
    ensures ModMul(a, 1, n) == ModMul(1, a, n) == a % n
    ensures Residue(a, n) ==> ModMul(a, 1, n) == ModMul(1, a, n) == a
  {}

  /** (ab)(cd) = (ac)(bd). */
  lemma MulSwap(a: int, b: int, c: int, d: int, n: Modulus)
    ensures ModMul(ModMul(a, b, n), ModMul(c, d, n), n) == ModMul(ModMul(a, c, n), ModMul(b, d, n), n)
  {
    hide ModMul;
    calc {
      ModMul(ModMul(a, b, n), ModMul(c, d, n), n);
      { MulAssociates(a, b, ModMul(c, d, n), n); }
      ModMul(a, ModMul(b, ModMul(c, d, n), n), n);
      { MulAssociates(b, c, d, n); MulCommutes(b, c, n); MulAssociates(c, b, d, n); }
      ModMul(a, ModMul(c, ModMul(b, d, n), n), n);
      { MulAssociates(a, c, ModMul(b, d, n), n); }
      ModMul(ModMul(a, c, n), ModMul(b, d, n), n);
    }
  }

  // ----- inversion -----

  /** `x` has an inverse modulo `n`. */
  predicate Unit(x: int, n: Modulus) {
    exists b | 0 <= b < n :: ModMul(x, b, n) == 1
  }

  lemma InverseIsUnique(x: int, b: int, c: int, n: Modulus)
    requires Residue(b, n) && Residue(c, n)
    requires ModMul(x, b, n) == 1 == ModMul(x, c, n)
    ensures b == c
  {
    hide ModMul;
    calc {
      b;
      { MulOne(b, n); }
      ModMul(ModMul(x, c, n), b, n);
      { MulCommutes(x, c, n); MulAssociates(c, x, b, n); MulOne(c, n); }
      c;
    }
  }

  /** `BigNumber::invert`: the inverse residue, or `None` when there is none. */
  function Invert(x: int, n: Modulus): (r: Option<int>)
    ensures r.Some? <==> Unit(x, n)
    ensures r.Some? ==> Residue(r.value, n) && ModMul(x, r.value, n) == 1
  {
    if Unit(x, n) then
      assert forall b, c | Residue(b, n) && Residue(c, n) && ModMul(x, b, n) == 1 == ModMul(x, c, n) :: b == c by {
        forall b, c | Residue(b, n) && Residue(c, n) && ModMul(x, b, n) == 1 == ModMul(x, c, n)
          ensures b == c
        {
          InverseIsUnique(x, b, c, n);
        }
      }
      var b :| 0 <= b < n && ModMul(x, b, n) == 1;
      Some(b)
    else
      None
  }

  function Inv(x: int, n: Modulus): (b: int)
    requires Unit(x, n)
    ensures Residue(b, n) && ModMul(x, b, n) == 1 == ModMul(b, x, n)
  {
    MulCommutes(x, Invert(x, n).value, n);
    Invert(x, n).value
  }

  lemma UnitFromInverse(x: int, b: int, n: Modulus)
    requires ModMul(x, b, n) == 1
    ensures Unit(x, n)
  {
    MulReduced(x, b, n);
    assert 0 <= b % n < n && ModMul(x, b % n, n) == 1;
  }

  /** The library inverts exactly the numbers coprime to the modulus. */
  lemma UnitIffCoprime(x: nat, n: Modulus)
    ensures Unit(x, n) <==> Gcd(x, n) == 1
  {
    hide Gcd, Unit, ModMul;
    if Gcd(x, n) == 1 {
      var s, t := Bezout(x, n);
      CombinationInverts(x, n, s, t);
    }
    if Unit(x, n) {
      var b := Inv(x, n);
      InverseCombines(x, n, b);
      CombinationOneIsCoprime(x, n, b, -(x * b / n));
    }
  }

  lemma CombinationInverts(x: int, n: Modulus, s: int, t: int)
    requires s * x + t * n == 1
    ensures Unit(x, n)
  {
    hide Unit;
    AddMultiple(1, -t, n);
    SmallRemainder(1, n);
    NegatedProduct(n, t);
    MulCommutative(n, t);
    MulCommutative(s, x);
    UnitFromInverse(x, s, n);
  }

  lemma InverseCombines(x: int, n: Modulus, b: int)
    requires ModMul(x, b, n) == 1
    ensures b * x + -(x * b / n) * n == 1
  {}

  lemma UnitProduct(x: int, y: int, n: Modulus)
    requires Unit(x, n) && Unit(y, n)
    ensures Unit(ModMul(x, y, n), n) && Unit(x * y, n)
  {
    var b, c := Inv(x, n), Inv(y, n);
    MulSwap(x, y, b, c, n);
    MulOne(1, n);
    UnitFromInverse(ModMul(x, y, n), ModMul(b, c, n), n);
    MulReduced(x * y, ModMul(b, c, n), n);
    UnitFromInverse(x * y, ModMul(b, c, n), n);
  }

  lemma ZeroIsNoUnit(n: Modulus)
    ensures !Unit(0, n)
  {}

  lemma UnitReduced(x: int, n: Modulus)
    ensures Unit(x % n, n) <==> Unit(x, n)
  {
    hide Unit;
    if Unit(x, n) {
      MulReduced(x, Inv(x, n), n);
      UnitFromInverse(x % n, Inv(x, n), n);
    }
    if Unit(x % n, n) {
      MulReduced(x, Inv(x % n, n), n);
      UnitFromInverse(x, Inv(x % n, n), n);
    }
  }

  /** A product has an inverse only if its factors do. */
  lemma FactorOfUnit(x: int, y: int, n: Modulus)
    requires Unit(ModMul(x, y, n), n)
    ensures Unit(x, n)
  {
    hide ModMul, Unit;
    var i := Inv(ModMul(x, y, n), n);
    MulAssociates(x, y, i, n);
    UnitFromInverse(x, ModMul(y, i, n), n);
  }

  lemma UnitInverse(x: int, n: Modulus)
    requires Unit(x, n)
    ensures Unit(Inv(x, n), n)
  {
    UnitFromInverse(Inv(x, n), x, n);
  }

  lemma Cancel(x: int, a: int, b: int, n: Modulus)
    requires Unit(x, n) && Residue(a, n) && Residue(b, n)
    requires ModMul(x, a, n) == ModMul(x, b, n)
    ensures a == b
  {
    hide ModMul;
    var i := Inv(x, n);
    MulAssociates(i, x, a, n);
    MulAssociates(i, x, b, n);
    MulOne(a, n);
    MulOne(b, n);
  }

  // ----- powers -----

  /** Repeated multiplication. */
  function NatPow(b: int, e: nat, n: Modulus): (r: int)
    ensures Residue(r, n)
  {
    if e == 0 then 1 else ModMul(b, NatPow(b, e - 1, n), n)
  }

  /** `BigNumber::modpow`: a negative exponent raises the inverse.  For a base without an
      inverse the library's answer is outside the repository; 0 stands for it here. */
  function ModPow(b: int, e: int, n: Modulus): (r: int)
    ensures Residue(r, n)
  {
    if e >= 0 then NatPow(b, e, n)
    else if Unit(b, n) then NatPow(Inv(b, n), -e, n)
    else 0
  }

  /** The exponent laws hold for this base and exponent. */
  predicate Raisable(b: int, e: int, n: Modulus) {
    e >= 0 || Unit(b, n)
  }

  lemma PowNat(b: int, e: nat, n: Modulus)
    ensures ModPow(b, e, n) == NatPow(b, e, n)
  {}

  lemma PowZero(b: int, n: Modulus)
    ensures ModPow(b, 0, n) == 1
  {}

  lemma PowOne(b: int, n: Modulus)
    ensures ModPow(b, 1, n) == b % n
    ensures Residue(b, n) ==> ModPow(b, 1, n) == b
  {
    assert NatPow(b, 1, n) == ModMul(b, NatPow(b, 0, n), n);
    MulOne(b, n);
  }

  lemma PowStep(b: int, e: int, n: Modulus)
    requires Raisable(b, e, n)
    ensures ModPow(b, e + 1, n) == ModMul(b, ModPow(b, e, n), n)
  {
    hide ModMul;
    if e < 0 {
      var i := Inv(b, n);
      assert NatPow(i, -e, n) == ModMul(i, NatPow(i, -e - 1, n), n);
      MulAssociates(b, i, NatPow(i, -e - 1, n), n);
      MulOne(NatPow(i, -e - 1, n), n);
    }
  }

  lemma {:induction false} PowUnit(b: int, e: int, n: Modulus)
    requires Unit(b, n)
    ensures Unit(ModPow(b, e, n), n)
    decreases if e < 0 then -e else e
  {
    hide ModMul, Unit;
    if e == 0 {
      MulOne(1, n);
      UnitFromInverse(1, 1, n);
    } else if e > 0 {
      PowStep(b, e - 1, n);
      PowUnit(b, e - 1, n);
      UnitProduct(b, ModPow(b, e - 1, n), n);
    } else {
      PowUnit(b, e + 1, n);
      var i := Inv(b, n);
      PowStep(b, e, n);
      UnitInverse(b, n);
      UnitProduct(i, ModPow(b, e + 1, n), n);
      MulAssociates(i, b, ModPow(b, e, n), n);
      MulOne(ModPow(b, e, n), n);
    }
  }

  lemma {:induction false} PowAdd(b: int, e: int, f: int, n: Modulus)
    requires Raisable(b, e, n) && Raisable(b, f, n)
    ensures ModPow(b, e + f, n) == ModMul(ModPow(b, e, n), ModPow(b, f, n), n)
    decreases if e < 0 then -e else e
  {
    hide ModMul, Unit, ModPow;
    if e == 0 {
      PowZero(b, n);
      MulOne(ModPow(b, f, n), n);
    } else if e > 0 {
      PowAdd(b, e - 1, f, n);
      if e - 1 + f >= 0 || Unit(b, n) {
        PowStep(b, e - 1 + f, n);
      }
      PowStep(b, e - 1, n);
      MulAssociates(b, ModPow(b, e - 1, n), ModPow(b, f, n), n);
    } else {
      PowAdd(b, e + 1, f, n);
      PowStep(b, e + f, n);
      PowStep(b, e, n);
      MulAssociates(b, ModPow(b, e, n), ModPow(b, f, n), n);
      Cancel(b, ModPow(b, e + f, n), ModMul(ModPow(b, e, n), ModPow(b, f, n), n), n);
    }
  }

  lemma {:induction false} PowMul(b: int, e: int, f: int, n: Modulus)
    requires Raisable(b, e, n) && Raisable(b, f, n)
    ensures ModPow(ModPow(b, e, n), f, n) == ModPow(b, e * f, n)
    decreases if f < 0 then -f else f
  {
    hide ModMul, Unit, ModPow;
    var x := ModPow(b, e, n);
    if Unit(b, n) {
      PowUnit(b, e, n);
    }
    if f == 0 {
      PowZero(b, n);
      PowZero(x, n);
    } else if f > 0 {
      PowMul(b, e, f - 1, n);
      PowStep(x, f - 1, n);
      assert e + e * (f - 1) == e * f;
      if e >= 0 {
        assert e * (f - 1) >= 0;
      }
      PowAdd(b, e, e * (f - 1), n);
    } else {
      PowMul(b, e, f + 1, n);
      PowStep(x, f, n);
      assert e + e * f == e * (f + 1);
      PowAdd(b, e, e * f, n);
      Cancel(x, ModPow(x, f, n), ModPow(b, e * f, n), n);
    }
  }

  lemma {:induction false} PowProduct(b: int, c: int, e: int, n: Modulus)
    requires Raisable(b, e, n) && Raisable(c, e, n)
    ensures ModPow(ModMul(b, c, n), e, n) == ModMul(ModPow(b, e, n), ModPow(c, e, n), n)
    decreases if e < 0 then -e else e
  {
    hide ModMul, Unit, ModPow;
    var x := ModMul(b, c, n);
    if e == 0 {
      PowZero(b, n);
      PowZero(c, n);
      PowZero(x, n);
      MulOne(1, n);
    } else if e > 0 {
      PowProduct(b, c, e - 1, n);
      PowStep(b, e - 1, n);
      PowStep(c, e - 1, n);
      PowStep(x, e - 1, n);
      MulSwap(b, c, ModPow(b, e - 1, n), ModPow(c, e - 1, n), n);
    } else {
      UnitProduct(b, c, n);
      PowProduct(b, c, e + 1, n);
      PowStep(b, e, n);
      PowStep(c, e, n);
      PowStep(x, e, n);
      MulSwap(b, c, ModPow(b, e, n), ModPow(c, e, n), n);
      Cancel(x, ModPow(x, e, n), ModMul(ModPow(b, e, n), ModPow(c, e, n), n), n);
    }
  }

  /** A positive power has an inverse only if its base does. */
  lemma BaseOfUnitPower(b: int, e: int, n: Modulus)
    requires e > 0 && Unit(ModPow(b, e, n), n)
    ensures Unit(b, n)
  {
    hide ModMul, Unit, ModPow;
    PowStep(b, e - 1, n);
    FactorOfUnit(b, ModPow(b, e - 1, n), n);
  }

  lemma {:induction false} OnePow(e: int, n: Modulus)
    ensures Unit(1, n) && ModPow(1, e, n) == 1
    decreases if e < 0 then -e else e
  {
    hide ModMul, Unit, ModPow;
    MulOne(1, n);
    UnitFromInverse(1, 1, n);
    if e == 0 {
      PowZero(1, n);
    } else if e > 0 {
      OnePow(e - 1, n);
      PowStep(1, e - 1, n);
    } else {
      OnePow(e + 1, n);
      PowStep(1, e, n);
      MulOne(ModPow(1, e, n), n);
    }
  }

  /** Raising to -e inverts raising to e. */
  lemma PowNegate(b: int, e: int, n: Modulus)
    requires Unit(b, n)
    ensures ModMul(ModPow(b, e, n), ModPow(b, -e, n), n) == 1
  {
    PowAdd(b, e, -e, n);
    PowZero(b, n);
  }

  /** Powers only see the residue of the base. */
  lemma {:induction false} NatPowReduced(b: int, e: nat, n: Modulus)
    ensures NatPow(b % n, e, n) == NatPow(b, e, n)
  {
    hide ModMul;
    if e == 0 {
    } else {
      NatPowReduced(b, e - 1, n);
      MulReduced(b, NatPow(b, e - 1, n), n);
    }
  }

  lemma PowReduced(b: int, e: int, n: Modulus)
    requires Unit(b, n)
    ensures ModPow(b % n, e, n) == ModPow(b, e, n)
  {
    hide NatPow, ModMul, Unit;
    UnitReduced(b, n);
    if e >= 0 {
      NatPowReduced(b, e, n);
    } else {
      MulReduced(b, Inv(b % n, n), n);
      InverseIsUnique(b, Inv(b, n), Inv(b % n, n), n);
    }
  }
}
