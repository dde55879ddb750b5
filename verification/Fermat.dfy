/** Fermat's little theorem, by the permutation argument: multiplying by a non-zero residue
    permutes 1..p-1, so a^(p-1) times their product is their product again. */
module Fermat {
  import opened Arithmetic
  import opened Modular

  lemma EmptyOrInhabited(s: set<int>)
    ensures s == {} || exists x :: x in s
  {
    if forall x :: x !in s {
      assert s == {};
    }
  }

  ghost function SetProduct(s: set<int>, n: Modulus): int {
    EmptyOrInhabited(s);
    if s == {} then 1
    else
      var x :| x in s;
      ModMul(x, SetProduct(s - {x}, n), n)
  }

  lemma {:induction false} ExtractFactor(s: set<int>, x: int, n: Modulus)
    requires x in s
    ensures SetProduct(s, n) == ModMul(x, SetProduct(s - {x}, n), n)
  {
    hide ModMul;
    var y :| y in s && SetProduct(s, n) == ModMul(y, SetProduct(s - {y}, n), n);
    if y != x {
      ExtractFactor(s - {y}, x, n);
      ExtractFactor(s - {x}, y, n);
      var rest := SetProduct(s - {x} - {y}, n);
      assert s - {x} - {y} == s - {y} - {x};
      MulAssociates(x, y, rest, n);
      MulAssociates(y, x, rest, n);
      MulCommutes(x, y, n);
    }
  }

  ghost function Scale(a: int, s: set<int>, n: Modulus): set<int> {
    set x | x in s :: ModMul(a, x, n)
  }

  ghost predicate AllResidues(s: set<int>, n: Modulus) {
    forall x | x in s :: Residue(x, n)
  }

  lemma {:induction false} ScaledProduct(a: int, s: set<int>, n: Modulus)
    requires Unit(a, n) && AllResidues(s, n)
    ensures |Scale(a, s, n)| == |s|
    ensures SetProduct(Scale(a, s, n), n) == ModMul(NatPow(a, |s|, n), SetProduct(s, n), n)
  {
    hide ModMul, Unit;
    var t := Scale(a, s, n);
    EmptyOrInhabited(s);
    if s == {} {
      MulOne(1, n);
    } else {
      var x :| x in s;
      var y, s' := ModMul(a, x, n), s - {x};
      ScaledProduct(a, s', n);
      assert t - {y} == Scale(a, s', n) by {
        forall z | z in s' ensures ModMul(a, z, n) != y {
          if ModMul(a, z, n) == y { Cancel(a, z, x, n); }
        }
      }
      assert y in t;
      ExtractFactor(t, y, n);
      ExtractFactor(s, x, n);
      MulSwap(a, x, NatPow(a, |s'|, n), SetProduct(s', n), n);
    }
  }

  ghost function NonZero(n: nat): set<int> {
    set x: int {:trigger Residue(x, n)} | 1 <= x < n && Residue(x, n)
  }

  lemma {:induction false} NonZeroSize(n: nat)
    requires n >= 1
    ensures |NonZero(n)| == n - 1
  {
    if n == 1 {
      assert NonZero(n) == {};
    } else {
      NonZeroSize(n - 1);
      assert NonZero(n) == NonZero(n - 1) + {n - 1};
    }
  }

  lemma SubsetOfSameSize(s: set<int>, t: set<int>)
    requires s <= t && |s| == |t|
    ensures s == t
  {
    assert t == s + (t - s);
    assert |t - s| == 0;
  }

  lemma {:induction false} UnitSetProduct(s: set<int>, n: Modulus)
    requires forall x | x in s :: Unit(x, n)
    ensures Unit(SetProduct(s, n), n)
  {
    hide ModMul, Unit;
    EmptyOrInhabited(s);
    if s == {} {
      OnePow(0, n);
    } else {
      var x :| x in s;
      ExtractFactor(s, x, n);
      UnitSetProduct(s - {x}, n);
      UnitProduct(x, SetProduct(s - {x}, n), n);
    }
  }

  lemma FermatLittle(a: nat, p: Modulus)
    requires IsPrime(p) && !Divides(p, a)
    ensures NatPow(a, p - 1, p) == 1
  {
    hide ModMul, Unit, NatPow, SetProduct;
    PrimeCoprime(p, a);
    GcdCommutes(p, a);
    UnitIffCoprime(a, p);
    var s := NonZero(p);
    NonZeroSize(p);
    ScaledProduct(a, s, p);
    assert Scale(a, s, p) <= s by {
      forall x | x in s ensures ModMul(a, x, p) in s {
        if ModMul(a, x, p) == 0 {
          MulZero(a, p);
          Cancel(a, x, 0, p);
        }
      }
    }
    SubsetOfSameSize(Scale(a, s, p), s);
    forall x | x in s ensures Unit(x, p) {
      SmallerThanPrimeIsCoprime(p, x);
      GcdCommutes(p, x);
      UnitIffCoprime(x, p);
    }
    UnitSetProduct(s, p);
    MulCommutes(NatPow(a, p - 1, p), SetProduct(s, p), p);
    MulOne(SetProduct(s, p), p);
    SetProductResidue(s, p);
    Cancel(SetProduct(s, p), NatPow(a, p - 1, p), 1, p);
  }

  lemma MulZero(a: int, n: Modulus)
    ensures ModMul(a, 0, n) == 0
  {}

  lemma SetProductResidue(s: set<int>, n: Modulus)
    ensures Residue(SetProduct(s, n), n)
  {}

  /** a^(1 + m(p-1)) = a modulo p, for every a: multiples of p included. */
  lemma FermatFixesEveryResidue(a: nat, m: nat, p: Modulus)
    requires IsPrime(p)
    ensures m * (p - 1) >= 0
    ensures NatPow(a, 1 + m * (p - 1), p) == a % p
  {
    hide ModMul, NatPow;
    var e: nat := m * (p - 1);
    if Divides(p, a) {
      MultiplePow(a, e, p);
    } else {
      FermatLittle(a, p);
      PowNat(a, p - 1, p);
      PowMul(a, p - 1, m, p);
      OnePow(m, p);
      MulCommutative(p - 1, m);
      PowStep(a, e, p);
      PowNat(a, 1 + e, p);
      MulOne(a, p);
    }
  }

  lemma MultiplePow(a: nat, e: nat, p: Modulus)
    requires Divides(p, a)
    ensures NatPow(a, 1 + e, p) == 0 == a % p
  {
    var r := NatPow(a, e, p);
    var k := DivideOut(p, a);
    Associate(p, k, r);
    MultipleIsDivisible(p, k * r);
  }
}
