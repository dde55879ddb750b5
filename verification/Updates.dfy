/** The arithmetic of removals and of the holder's witness update, for any key. */
module Updates {
  import opened Arithmetic
  import opened Modular
  import opened Rsa
  import opened Roots

  /** The holder's formula u^b * value^a, from a Bezout pair a * x + b * xtilde. */
  function UpdatedWitness(n: Modulus, value: int, u: int, a: int, b: int): (w: int)
    ensures Residue(w, n)
  {
    ModMul(ModPow(u, b, n), ModPow(value, a, n), n)
  }

  ghost predicate IsBezout(a: int, b: int, x: nat, y: nat) {
    a * x + b * y == Gcd(x, y)
  }

  /** `verify_mem`: u^x is the accumulator value. */
  predicate Verifies(n: Modulus, value: int, x: int, u: int) {
    ModPow(u, x, n) == value
  }

  /** A unit residue: the standing assumption on every sampled residue. */
  ghost predicate UnitResidue(v: int, n: Modulus) {
    Residue(v, n) && Unit(v, n)
  }

  // ----- products of elements -----

  function Product(xs: seq<nat>): nat {
    if xs == [] then 1 else xs[0] * Product(xs[1..])
  }

  ghost predicate Invertible(xs: seq<nat>, phi: Modulus) {
    forall i | 0 <= i < |xs| :: Unit(xs[i], phi)
  }

  lemma {:induction false} ProductInvertible(xs: seq<nat>, phi: Modulus)
    requires Invertible(xs, phi)
    ensures Unit(Product(xs), phi)
  {
    hide Unit;
    if xs == [] {
      OnePow(0, phi);
    } else {
      ProductInvertible(xs[1..], phi);
      UnitProduct(xs[0], Product(xs[1..]), phi);
    }
  }

  /** A prime is coprime to a product of primes exactly when it is not one of them. */
  lemma {:induction false} PrimeAgainstProduct(x: nat, ys: seq<nat>)
    requires IsPrime(x) && forall y | y in ys :: IsPrime(y)
    ensures Gcd(x, Product(ys)) == if x in ys then x else 1
  {
    hide Gcd, Divides;
    if ys == [] {
      CombinationOneIsCoprime(x, 1, 0, 1);
    } else {
      var y, z := ys[0], Product(ys[1..]);
      PrimeAgainstProduct(x, ys[1..]);
      if x == y {
        MultipleIsDivisible(x, z);
        DivisorIsGcd(x, x * z);
      } else {
        DistinctPrimesAreCoprime(x, y);
        if x in ys[1..] {
          PrimeCoprime(x, z);
          var k := DivideOutPrime(x, z);
          Associate(y, x, k);
          MulCommutative(y, x);
          Associate(x, y, k);
          MultipleIsDivisible(x, y * k);
          DivisorIsGcd(x, y * z);
        } else {
          CoprimeToProduct(x, y, z);
        }
      }
    }
  }

  lemma DivideOutPrime(x: nat, z: nat) returns (k: nat)
    requires IsPrime(x) && Gcd(x, z) == x
    ensures z == x * k
  {
    GcdDivides(x, z);
    k := DivideOut(x, z);
  }

  lemma DivisorIsGcd(x: nat, y: nat)
    requires x > 0 && Divides(x, y)
    ensures Gcd(x, y) == x
  {
    GcdCommutes(x, y);
    assert Gcd(y, x) == Gcd(x, 0);
  }

  // ----- what one update computes -----

  /** If the witness raised to x is the e-th power of the old value, the updated one raised
      to x is the new value raised to a * x + b * d * e. */
  lemma UpdatePower(k: Key, v: int, u: int, x: nat, d: nat, a: int, b: int, e: int)
    requires k.Valid() && UnitResidue(v, k.N()) && UnitResidue(u, k.N()) && Unit(d, k.Phi())
    requires ModPow(u, x, k.N()) == ModPow(v, e, k.N())
    ensures var v' := Root(k, v, d);
      && UnitResidue(UpdatedWitness(k.N(), v', u, a, b), k.N())
      && ModPow(UpdatedWitness(k.N(), v', u, a, b), x, k.N()) == ModPow(v', a * x + b * (d * e), k.N())
  {
    hide ModMul, Unit, NatPow, ModPow, Root;
    var n, v' := k.N(), Root(k, v, d);
    RootOfUnit(k, v, d);
    PowUnit(u, b, n);
    PowUnit(v', a, n);
    UnitProduct(ModPow(u, b, n), ModPow(v', a, n), n);
    calc {
      ModPow(UpdatedWitness(n, v', u, a, b), x, n);
      { PowProduct(ModPow(u, b, n), ModPow(v', a, n), x, n); }
      ModMul(ModPow(ModPow(u, b, n), x, n), ModPow(ModPow(v', a, n), x, n), n);
      { PowMul(u, b, x, n); PowMul(u, x, b, n); MulCommutative(b, x); PowMul(v', a, x, n); }
      ModMul(ModPow(ModPow(v, e, n), b, n), ModPow(v', a * x, n), n);
      { RootIsRoot(k, v, d); PowMul(v', d, e, n); PowMul(v', d * e, b, n); MulCommutative(b, d * e); }
      ModMul(ModPow(v', b * (d * e), n), ModPow(v', a * x, n), n);
      { PowAdd(v', b * (d * e), a * x, n); }
      ModPow(v', a * x + b * (d * e), n);
    }
  }

  /** The updated witness raised to x is the new value raised to a * x + b * d. */
  lemma UpdateIdentity(k: Key, v: int, u: int, x: nat, d: nat, a: int, b: int)
    requires k.Valid() && UnitResidue(v, k.N()) && Residue(u, k.N())
    requires Unit(x, k.Phi()) && Unit(d, k.Phi())
    requires Verifies(k.N(), v, x, u)
    ensures var v' := Root(k, v, d);
      ModPow(UpdatedWitness(k.N(), v', u, a, b), x, k.N()) == ModPow(v', a * x + b * d, k.N())
  {
    hide ModMul, Unit, NatPow, ModPow, Root, UpdatedWitness;
    RootIsUnique(k, v, x, u);
    RootOfUnit(k, v, x);
    PowOne(v, k.N());
    UpdatePower(k, v, u, x, d, a, b, 1);
  }

  /** Whatever Bezout pair the library returns, the updated witness is the x-th root of
      the new value raised to the gcd of the two elements. */
  lemma UpdateResult(k: Key, v: int, u: int, x: nat, d: nat, a: int, b: int)
    requires k.Valid() && UnitResidue(v, k.N()) && Residue(u, k.N())
    requires Unit(x, k.Phi()) && Unit(d, k.Phi())
    requires Verifies(k.N(), v, x, u) && IsBezout(a, b, x, d)
    ensures var v' := Root(k, v, d);
      UpdatedWitness(k.N(), v', u, a, b) == Root(k, ModPow(v', Gcd(x, d), k.N()), x)
  {
    hide ModMul, Unit, NatPow, ModPow, Root, Gcd;
    var v' := Root(k, v, d);
    UpdateIdentity(k, v, u, x, d, a, b);
    RootIsUnique(k, ModPow(v', Gcd(x, d), k.N()), x, UpdatedWitness(k.N(), v', u, a, b));
  }

  /** A holder whose element is coprime to the removed product gets exactly the witness
      that would be issued afresh for the new value. */
  lemma UpdateKeepsWitness(k: Key, v: int, u: int, x: nat, d: nat, a: int, b: int)
    requires k.Valid() && UnitResidue(v, k.N()) && Residue(u, k.N())
    requires Unit(x, k.Phi()) && Unit(d, k.Phi())
    requires Verifies(k.N(), v, x, u) && IsBezout(a, b, x, d) && Gcd(x, d) == 1
    ensures var v' := Root(k, v, d);
      UpdatedWitness(k.N(), v', u, a, b) == Root(k, v', x)
  {
    hide ModMul, Unit, NatPow, Root, Gcd;
    UpdateResult(k, v, u, x, d, a, b);
    PowOne(Root(k, v, d), k.N());
  }

  /** A holder whose element divides the removed product computes the new value itself. */
  lemma RevokedUpdateIsNewValue(k: Key, v: int, u: int, x: nat, d: nat, a: int, b: int)
    requires k.Valid() && UnitResidue(v, k.N()) && Residue(u, k.N())
    requires Unit(x, k.Phi()) && Unit(d, k.Phi())
    requires Verifies(k.N(), v, x, u) && IsBezout(a, b, x, d) && Gcd(x, d) == x
    ensures UpdatedWitness(k.N(), Root(k, v, d), u, a, b) == Root(k, v, d)
  {
    hide ModMul, Unit, NatPow, ModPow, Root, Gcd;
    var v' := Root(k, v, d);
    UpdateResult(k, v, u, x, d, a, b);
    RootIsUnique(k, ModPow(v', x, k.N()), x, v');
  }

  // ----- safe primes: revocation takes effect -----

  lemma RootOfQuadraticResidue(k: Key, v: int, d: nat)
    requires k.Valid() && QuadraticResidue(v, k.N()) && Unit(d, k.Phi())
    ensures UnitResidue(v, k.N()) && QuadraticResidue(Root(k, v, d), k.N())
    ensures Root(k, v, d) == 1 <==> v == 1
  {
    hide ModMul, Unit, NatPow, ModPow;
    QuadraticResidueIsUnit(v, k.N());
    PowerOfQuadraticResidue(v, Inv(d, k.Phi()), k.N());
    RootIsRoot(k, v, d);
    OnePow(d, k.N());
    OnePow(Inv(d, k.Phi()), k.N());
  }

  /** g-th powers of a residue other than 1 move it, for every 1 < g <= min(p', q'). */
  lemma PowerFixesOnlyOne(k: Key, v: int, g: nat)
    requires k.Safe() && QuadraticResidue(v, k.N()) && 1 < g <= k.MinHalf()
    ensures ModPow(v, g, k.N()) == v <==> v == 1
  {
    hide ModMul, Unit, NatPow, ModPow;
    QuadraticResidueIsUnit(v, k.N());
    PowStep(v, g - 1, k.N());
    MulOne(v, k.N());
    if ModPow(v, g, k.N()) == v {
      Cancel(v, ModPow(v, g - 1, k.N()), 1, k.N());
      NoSmallOrder(k, v, g - 1);
    }
    OnePow(g, k.N());
  }

  /** After the update, the witness verifies exactly when the holder's element was coprime
      to what was removed. */
  lemma UpdatedVerifiesIffCoprime(k: Key, v: int, u: int, x: nat, d: nat, a: int, b: int)
    requires k.Safe() && QuadraticResidue(v, k.N()) && v != 1 && Residue(u, k.N())
    requires Unit(x, k.Phi()) && Unit(d, k.Phi()) && 0 < x <= k.MinHalf()
    requires Verifies(k.N(), v, x, u) && IsBezout(a, b, x, d)
    ensures var v' := Root(k, v, d);
      Verifies(k.N(), v', x, UpdatedWitness(k.N(), v', u, a, b)) <==> Gcd(x, d) == 1
  {
    hide ModMul, Unit, NatPow, ModPow, Root, Gcd;
    var v', g := Root(k, v, d), Gcd(x, d);
    RootOfQuadraticResidue(k, v, d);
    UpdateIdentity(k, v, u, x, d, a, b);
    GcdDivides(x, d);
    DivisorAtMost(g, x);
    if g == 1 {
      PowOne(v', k.N());
    } else {
      PowerFixesOnlyOne(k, v', g);
    }
  }

  /** Removing y changes the value, so no witness issued before it verifies any more. */
  lemma RemovalInvalidatesOldWitnesses(k: Key, v: int, y: nat)
    requires k.Safe() && QuadraticResidue(v, k.N()) && v != 1
    requires Unit(y, k.Phi()) && 1 < y <= k.MinHalf()
    ensures Root(k, v, y) != v
    ensures forall x: nat, u: int :: Verifies(k.N(), v, x, u) ==> !Verifies(k.N(), Root(k, v, y), x, u)
  {
    hide ModMul, Unit, NatPow, ModPow, Root;
    RootOfQuadraticResidue(k, v, y);
    RootIsRoot(k, v, y);
    PowerFixesOnlyOne(k, Root(k, v, y), y);
  }

  // ----- sequences of removals -----

  /** The value after removing the elements one by one. */
  function ValueAfter(k: Key, v: int, xs: seq<nat>): int
    requires Invertible(xs, k.Phi())
    decreases |xs|
  {
    if xs == [] then v else ValueAfter(k, Root(k, v, xs[0]), xs[1..])
  }

  lemma {:induction false} ValueAfterSnoc(k: Key, v: int, xs: seq<nat>, x: nat)
    requires Invertible(xs + [x], k.Phi())
    ensures Invertible(xs, k.Phi()) && Unit(x, k.Phi())
    ensures ValueAfter(k, v, xs + [x]) == Root(k, ValueAfter(k, v, xs), x)
    decreases |xs|
  {
    hide Unit, Root;
    assert (xs + [x])[|xs|] == x;
    assert forall i | 0 <= i < |xs| :: (xs + [x])[i] == xs[i];
    if xs == [] {
    } else {
      assert (xs + [x])[1..] == xs[1..] + [x];
      ValueAfterSnoc(k, Root(k, v, xs[0]), xs[1..], x);
    }
  }

  /** One root of the raw product reaches the same value as one root per element. */
  lemma {:induction false} BatchReachesLoopValue(k: Key, v: int, xs: seq<nat>)
    requires k.Valid() && Residue(v, k.N()) && Invertible(xs, k.Phi())
    ensures Unit(Product(xs), k.Phi())
    ensures Root(k, v, Product(xs)) == ValueAfter(k, v, xs)
    decreases |xs|
  {
    hide Unit, Root, ModMul, ModPow, NatPow;
    ProductInvertible(xs, k.Phi());
    if xs == [] {
      PowOne(v, k.N());
      RootIsUnique(k, v, 1, v);
    } else {
      BatchReachesLoopValue(k, Root(k, v, xs[0]), xs[1..]);
      RootOfRoot(k, v, xs[0], Product(xs[1..]));
    }
  }

  lemma {:induction false} ProductExtract(ys: seq<nat>, i: nat)
    requires i < |ys|
    ensures Product(ys) == ys[i] * Product(ys[..i] + ys[i + 1..])
  {
    if i == 0 {
      assert ys[..0] + ys[1..] == ys[1..];
    } else {
      var rest := ys[1..];
      ProductExtract(rest, i - 1);
      assert (ys[..i] + ys[i + 1..])[1..] == rest[..i - 1] + rest[i..];
      var z := Product(rest[..i - 1] + rest[i..]);
      Associate(ys[0], ys[i], z);
      MulCommutative(ys[0], ys[i]);
      Associate(ys[i], ys[0], z);
    }
  }

  lemma {:induction false} ProductIgnoresOrder(xs: seq<nat>, ys: seq<nat>)
    requires multiset(xs) == multiset(ys)
    ensures Product(xs) == Product(ys)
  {
    assert |xs| == |multiset(xs)| == |multiset(ys)| == |ys|;
    if xs == [] {
    } else {
      assert xs[0] in multiset(ys);
      var i :| 0 <= i < |ys| && ys[i] == xs[0];
      RemainingItems(xs, ys, i);
      ProductIgnoresOrder(xs[1..], ys[..i] + ys[i + 1..]);
      ProductExtract(ys, i);
    }
  }

  lemma RemainingItems(xs: seq<nat>, ys: seq<nat>, i: nat)
    requires xs != [] && i < |ys| && ys[i] == xs[0] && multiset(xs) == multiset(ys)
    ensures multiset(xs[1..]) == multiset(ys[..i] + ys[i + 1..])
  {
    var before, after := ys[..i], ys[i + 1..];
    assert xs == [xs[0]] + xs[1..];
    assert multiset(xs[1..]) == multiset(xs) - multiset{xs[0]};
    assert ys == before + [ys[i]] + after;
    assert multiset(before + after) == multiset(ys) - multiset{ys[i]};
  }

  /** Removals in any order reach one value. */
  lemma RemovalsIgnoreOrder(k: Key, v: int, xs: seq<nat>, ys: seq<nat>)
    requires k.Valid() && Residue(v, k.N()) && Invertible(xs, k.Phi()) && multiset(xs) == multiset(ys)
    ensures Invertible(ys, k.Phi()) && ValueAfter(k, v, xs) == ValueAfter(k, v, ys)
  {
    hide Unit, Root, Product, ValueAfter;
    forall i | 0 <= i < |ys| ensures Unit(ys[i], k.Phi()) {
      assert ys[i] in multiset(xs);
    }
    ProductIgnoresOrder(xs, ys);
    BatchReachesLoopValue(k, v, xs);
    BatchReachesLoopValue(k, v, ys);
  }

  /** The witness of a holder that applies one published removal after the other, each
      against the value published with it and with its own Bezout pair. */
  function OneByOne(k: Key, v: int, u: int, xs: seq<nat>, pairs: seq<(int, int)>): int
    requires Invertible(xs, k.Phi()) && |pairs| == |xs|
    decreases |xs|
  {
    if xs == [] then u
    else
      var v' := Root(k, v, xs[0]);
      OneByOne(k, v', UpdatedWitness(k.N(), v', u, pairs[0].0, pairs[0].1), xs[1..], pairs[1..])
  }

  lemma {:induction false} OneByOneIsFresh(k: Key, v: int, u: int, x: nat, xs: seq<nat>, pairs: seq<(int, int)>)
    requires k.Valid() && UnitResidue(v, k.N()) && Residue(u, k.N())
    requires Unit(x, k.Phi()) && Invertible(xs, k.Phi()) && |pairs| == |xs|
    requires Verifies(k.N(), v, x, u)
    requires forall i | 0 <= i < |xs| :: Gcd(x, xs[i]) == 1 && IsBezout(pairs[i].0, pairs[i].1, x, xs[i])
    ensures OneByOne(k, v, u, xs, pairs) == Root(k, ValueAfter(k, v, xs), x)
    decreases |xs|
  {
    hide Unit, Root, ModMul, ModPow, NatPow, Gcd, UpdatedWitness;
    if xs == [] {
      RootIsUnique(k, v, x, u);
    } else {
      var v' := Root(k, v, xs[0]);
      UpdateKeepsWitness(k, v, u, x, xs[0], pairs[0].0, pairs[0].1);
      RootOfUnit(k, v, xs[0]);
      RootIsRoot(k, v', x);
      OneByOneIsFresh(k, v', Root(k, v', x), x, xs[1..], pairs[1..]);
    }
  }

  lemma {:induction false} CoprimeToAll(x: nat, xs: seq<nat>)
    requires forall i | 0 <= i < |xs| :: Gcd(x, xs[i]) == 1
    ensures Gcd(x, Product(xs)) == 1
  {
    hide Gcd;
    if xs == [] {
      CombinationOneIsCoprime(x, 1, 0, 1);
    } else {
      CoprimeToAll(x, xs[1..]);
      CoprimeToProduct(x, xs[0], Product(xs[1..]));
    }
  }

  /** Update confluence: catching up removal by removal, or once with their product against
      the final value, gives the same witness. */
  lemma UpdatesConfluent(k: Key, v: int, u: int, x: nat, xs: seq<nat>, pairs: seq<(int, int)>, a: int, b: int)
    requires k.Valid() && UnitResidue(v, k.N()) && Residue(u, k.N())
    requires Unit(x, k.Phi()) && Invertible(xs, k.Phi()) && |pairs| == |xs|
    requires Verifies(k.N(), v, x, u)
    requires forall i | 0 <= i < |xs| :: Gcd(x, xs[i]) == 1 && IsBezout(pairs[i].0, pairs[i].1, x, xs[i])
    requires IsBezout(a, b, x, Product(xs))
    ensures OneByOne(k, v, u, xs, pairs) == UpdatedWitness(k.N(), ValueAfter(k, v, xs), u, a, b)
  {
    hide Unit, Root, ModMul, ModPow, NatPow, Gcd, UpdatedWitness, Verifies;
    OneByOneIsFresh(k, v, u, x, xs, pairs);
    CoprimeToAll(x, xs);
    BatchReachesLoopValue(k, v, xs);
    UpdateKeepsWitness(k, v, u, x, Product(xs), a, b);
  }

  // ----- a revoked holder stays out -----

  /** Coprime to the order of the quadratic residues. */
  ghost predicate MovesResidues(k: Key, m: int)
    requires k.Safe()
  {
    !Divides(k.HalfP(), m) && !Divides(k.HalfQ(), m)
  }

  /** A Bezout pair as `ExtendedGcd` returns it. */
  ghost predicate LibraryPair(a: int, b: int, x: nat, y: nat) {
    && IsBezout(a, b, x, y)
    && (x > 0 ==> 0 - x <= b <= x)
    && (0 < x < y && Divides(x, y) ==> a == 1 && b == 0)
  }

  /** What a later removal may be for a holder already revoked: coprime to its element, or a
      batch with its element and others. */
  ghost predicate LaterRemoval(x: nat, d: nat) {
    Gcd(x, d) == 1 || (0 < x < d && Divides(x, d))
  }

  lemma SmallMoves(k: Key, m: int)
    requires k.Safe() && m != 0 && 0 - k.MinHalf() < m < k.MinHalf()
    ensures MovesResidues(k, m)
  {
    if m > 0 {
      SmallRemainder(m, k.HalfP());
      SmallRemainder(m, k.HalfQ());
    } else {
      AddMultiple(m, 1, k.HalfP());
      SmallRemainder(m + k.HalfP(), k.HalfP());
      AddMultiple(m, 1, k.HalfQ());
      SmallRemainder(m + k.HalfQ(), k.HalfQ());
    }
  }

  lemma ProductMoves(k: Key, m: int, l: int)
    requires k.Safe() && MovesResidues(k, m) && MovesResidues(k, l)
    ensures MovesResidues(k, m * l)
  {
    PrimeProduct(k.HalfP(), m, l);
    PrimeProduct(k.HalfQ(), m, l);
  }

  lemma InvertibleMoves(k: Key, d: nat)
    requires k.Safe() && Unit(d, k.Phi())
    ensures MovesResidues(k, d)
  {
    hide Unit, Gcd, Key.Phi;
    UnitIffCoprime(d, k.Phi());
    SafeKeyNumbers(k);
    var s, t := Bezout(d, k.Phi());
    var h, i := k.HalfP(), k.HalfQ();
    assert k.Phi() == h * (4 * i) == i * (4 * h) by {
      Associate(2 * h, 2, i);
      Associate(h, 4, i);
      Associate(i, 4, h);
      MulCommutative(h, i);
    }
    NotDivisor(h, d, s, t, k.Phi(), 4 * i);
    NotDivisor(i, d, s, t, k.Phi(), 4 * h);
  }

  lemma NotDivisor(h: nat, d: int, s: int, t: int, phi: int, c: int)
    requires h >= 2 && phi == h * c && s * d + t * phi == 1
    ensures !Divides(h, d)
  {
    if Divides(h, d) {
      MultipleIsDivisible(h, c);
      DividesCombination(h, d, phi, s, t);
      SmallRemainder(1, h);
    }
  }

  /** v^m = 1 only for v = 1, when m is coprime to the order. */
  lemma MovedPower(k: Key, v: int, m: int)
    requires k.Safe() && QuadraticResidue(v, k.N()) && MovesResidues(k, m)
    requires ModPow(v, m, k.N()) == 1
    ensures v == 1
  {
    hide Unit, ModMul, ModPow, NatPow, Gcd, Divides;
    QuadraticResidueIsUnit(v, k.N());
    var e: nat := if m >= 0 then m else -m;
    if m < 0 {
      PowNegate(v, m, k.N());
      MulOne(ModPow(v, -m, k.N()), k.N());
      NegationDivisible(k.HalfP(), m);
      NegationDivisible(k.HalfQ(), m);
    }
    PrimeCoprime(k.HalfP(), e);
    PrimeCoprime(k.HalfQ(), e);
    GcdCommutes(k.HalfP(), e);
    GcdCommutes(k.HalfQ(), e);
    CoprimeToProduct(e, k.HalfP(), k.HalfQ());
    QuadraticResidueOrder(k, v);
    TwoTrivialPowers(v, e, k.HalfP() * k.HalfQ(), k.N());
  }

  /** The witness is off by a power that moves the value: w^x = v^(1 + defect). */
  ghost predicate Defective(k: Key, v: int, w: int, x: nat, defect: int)
    requires k.Safe()
  {
    && QuadraticResidue(v, k.N()) && v != 1
    && UnitResidue(w, k.N())
    && ModPow(w, x, k.N()) == ModPow(v, 1 + defect, k.N())
    && MovesResidues(k, defect)
  }

  lemma DefectiveNeverVerifies(k: Key, v: int, w: int, x: nat, defect: int)
    requires k.Safe() && Defective(k, v, w, x, defect)
    ensures !Verifies(k.N(), v, x, w)
  {
    hide Unit, ModMul, ModPow, NatPow, MovesResidues;
    QuadraticResidueIsUnit(v, k.N());
    if Verifies(k.N(), v, x, w) {
      PowStep(v, defect, k.N());
      MulOne(v, k.N());
      Cancel(v, ModPow(v, defect, k.N()), 1, k.N());
      MovedPower(k, v, defect);
    }
  }

  /** A further update multiplies the defect by b * d, which never repairs it. */
  lemma DefectPersists(k: Key, v: int, w: int, x: nat, defect: int, d: nat, a: int, b: int)
    requires k.Safe() && Defective(k, v, w, x, defect)
    requires 1 < x < k.MinHalf() && Unit(d, k.Phi()) && Gcd(x, d) == 1 && LibraryPair(a, b, x, d)
    ensures var v' := Root(k, v, d);
      Defective(k, v', UpdatedWitness(k.N(), v', w, a, b), x, b * d * defect)
  {
    hide Unit, ModMul, ModPow, NatPow, Root, UpdatedWitness, Gcd, QuadraticResidue, MovesResidues;
    RootOfQuadraticResidue(k, v, d);
    UpdatePower(k, v, w, x, d, a, b, 1 + defect);
    assert a * x + b * (d * (1 + defect)) == 1 + b * d * defect by {
      Distribute(d, 1, defect);
      Distribute(b, d, d * defect);
      Associate(b, d, defect);
    }
    BezoutCoefficientNonZero(a, b, x, d);
    SmallMoves(k, b);
    InvertibleMoves(k, d);
    ProductMoves(k, b, d);
    ProductMoves(k, b * d, defect);
  }

  lemma BezoutCoefficientNonZero(a: int, b: int, x: int, d: int)
    requires a * x + b * d == 1 && x > 1
    ensures b != 0
  {}

  /** A removal that takes the element out again makes the holder compute the new value: the
      defect starts over at x - 1. */
  lemma DefectStartsOver(k: Key, v: int, w: int, x: nat, defect: int, d: nat, a: int, b: int)
    requires k.Safe() && Defective(k, v, w, x, defect) && Unit(d, k.Phi())
    requires 1 < x < k.MinHalf() && x < d && Divides(x, d) && LibraryPair(a, b, x, d)
    ensures var v' := Root(k, v, d);
      UpdatedWitness(k.N(), v', w, a, b) == v' && Defective(k, v', v', x, x - 1)
  {
    hide Unit, NatPow, Root, Gcd, ModMul, ModPow, QuadraticResidue, MovesResidues, Divides, UpdatedWitness;
    var v' := Root(k, v, d);
    RootOfQuadraticResidue(k, v, d);
    assert a == 1 && b == 0;
    UpdateWithOneZero(k.N(), v', w);
    OriginalDefect(k, v', x);
  }

  lemma UpdateWithOneZero(n: Modulus, v: int, w: int)
    requires Residue(v, n)
    ensures UpdatedWitness(n, v, w, 1, 0) == v
  {
    hide ModMul, ModPow;
    PowZero(w, n);
    PowOne(v, n);
    MulOne(v, n);
  }

  /** Holding the value itself as a witness is the defect x - 1. */
  lemma OriginalDefect(k: Key, v: int, x: nat)
    requires k.Safe() && QuadraticResidue(v, k.N()) && v != 1 && 1 < x < k.MinHalf()
    ensures Defective(k, v, v, x, x - 1)
  {
    hide Unit, ModMul, ModPow, MovesResidues;
    QuadraticResidueIsUnit(v, k.N());
    SmallMoves(k, x - 1);
  }

  lemma {:induction false} DefectPersistsForever(k: Key, v: int, w: int, x: nat, defect: int,
                                                 ds: seq<nat>, pairs: seq<(int, int)>)
    requires k.Safe() && Defective(k, v, w, x, defect) && 1 < x < k.MinHalf()
    requires Invertible(ds, k.Phi()) && |pairs| == |ds|
    requires forall i | 0 <= i < |ds| :: LaterRemoval(x, ds[i]) && LibraryPair(pairs[i].0, pairs[i].1, x, ds[i])
    ensures !Verifies(k.N(), ValueAfter(k, v, ds), x, OneByOne(k, v, w, ds, pairs))
    decreases |ds|
  {
    hide Unit, Root, ModPow, UpdatedWitness, Gcd, Defective, Verifies, LibraryPair, Divides;
    if ds == [] {
      DefectiveNeverVerifies(k, v, w, x, defect);
    } else {
      var v' := Root(k, v, ds[0]);
      var next: int;
      if Gcd(x, ds[0]) == 1 {
        DefectPersists(k, v, w, x, defect, ds[0], pairs[0].0, pairs[0].1);
        next := pairs[0].1 * ds[0] * defect;
      } else {
        DefectStartsOver(k, v, w, x, defect, ds[0], pairs[0].0, pairs[0].1);
        next := x - 1;
      }
      DefectPersistsForever(k, v', UpdatedWitness(k.N(), v', w, pairs[0].0, pairs[0].1), x, next, ds[1..], pairs[1..]);
    }
  }

  /** Revocation is final: a holder whose element was in the removal `d` computes the new
      value, which does not verify, and no sequence of later updates repairs its witness. */
  lemma RevokedForever(k: Key, v: int, u: int, x: nat, d: nat, a: int, b: int, ds: seq<nat>, pairs: seq<(int, int)>)
    requires k.Safe() && QuadraticResidue(v, k.N()) && v != 1 && Residue(u, k.N())
    requires Unit(x, k.Phi()) && 1 < x < k.MinHalf() && Verifies(k.N(), v, x, u)
    requires Unit(d, k.Phi()) && Gcd(x, d) == x && IsBezout(a, b, x, d)
    requires Invertible(ds, k.Phi()) && |pairs| == |ds|
    requires forall i | 0 <= i < |ds| :: LaterRemoval(x, ds[i]) && LibraryPair(pairs[i].0, pairs[i].1, x, ds[i])
    ensures var v' := Root(k, v, d);
      var w := UpdatedWitness(k.N(), v', u, a, b);
      && w == v' && !Verifies(k.N(), v', x, w)
      && !Verifies(k.N(), ValueAfter(k, v', ds), x, OneByOne(k, v', w, ds, pairs))
  {
    hide Unit, Root, ModPow, UpdatedWitness, Gcd, OneByOne, ValueAfter, QuadraticResidue, LaterRemoval, LibraryPair;
    var v' := Root(k, v, d);
    RootOfQuadraticResidue(k, v, d);
    RevokedUpdateIsNewValue(k, v, u, x, d, a, b);
    OriginalDefect(k, v', x);
    DefectiveNeverVerifies(k, v', v', x, x - 1);
    DefectPersistsForever(k, v', v', x, x - 1, ds, pairs);
  }

  lemma OneUpdateLater(k: Key, v: int, u: int, x: nat, d: nat, a: int, b: int, y: nat, a': int, b': int)
    requires k.Safe() && QuadraticResidue(v, k.N()) && v != 1 && Residue(u, k.N())
    requires Unit(x, k.Phi()) && 1 < x < k.MinHalf() && Verifies(k.N(), v, x, u)
    requires Unit(d, k.Phi()) && Gcd(x, d) == x && IsBezout(a, b, x, d)
    requires Unit(y, k.Phi()) && Gcd(x, y) == 1 && LibraryPair(a', b', x, y)
    ensures var v' := Root(k, v, d);
      var w := UpdatedWitness(k.N(), v', u, a, b);
      && !Verifies(k.N(), v', x, w)
      && !Verifies(k.N(), Root(k, v', y), x, UpdatedWitness(k.N(), Root(k, v', y), w, a', b'))
  {
    hide Unit, ModPow, Root, UpdatedWitness, Gcd, QuadraticResidue, Verifies, IsBezout, LibraryPair;
    var ds, pairs := [y], [(a', b')];
    assert ds[1..] == [] && pairs[1..] == [];
    RevokedForever(k, v, u, x, d, a, b, ds, pairs);
  }

  lemma SmallKeyIsSafe(k: Key)
    requires k == Key(23, 47)
    ensures k.Safe() && k.MinHalf() == 11 && k.N() == 1081 && k.Phi() == 1012
  {
    assert forall d | 1 < d < 47 :: !Divides(d, 47);
    assert forall d | 1 < d < 23 :: !Divides(d, 23);
    assert forall d | 1 < d < 11 :: !Divides(d, 11);
  }

  /** p = 23, q = 47, the value 4, and the elements 3 and 5. */
  lemma SmallSetting() returns (k: Key, v: int, x: nat, y: nat)
    ensures k.Safe() && QuadraticResidue(v, k.N()) && v != 1 && UnitResidue(v, k.N())
    ensures 1 < x < k.MinHalf() && Unit(x, k.Phi()) && Unit(y, k.Phi())
    ensures Gcd(x, x) == x && IsBezout(1, 0, x, x) && Gcd(x, y) == 1 && LibraryPair(2, -1, x, y)
  {
    k, v, x, y := Key(23, 47), 4, 3, 5;
    hide Unit, ModMul, ModPow, NatPow, QuadraticResidue, IsPrime, Divides, Gcd, LibraryPair, Key.N, Key.Phi, Key.Safe, Key.MinHalf;
    SmallKeyIsSafe(k);
    SmallUnits(1012, 1081);
    SmallGcds();
  }

  lemma SmallUnits(phi: Modulus, n: Modulus)
    requires phi == 1012 && n == 1081
    ensures Unit(3, phi) && Unit(5, phi) && UnitResidue(4, n) && QuadraticResidue(4, n)
  {
    hide Unit, ModPow, NatPow, QuadraticResidue;
    UnitFromInverse(3, 675, phi);
    UnitFromInverse(5, 405, phi);
    UnitFromInverse(2, 541, n);
    PowStep(2, 1, n);
    PowOne(2, n);
    SquareIsUnit(2, n);
  }

  lemma SmallGcds()
    ensures Gcd(3, 5) == 1 && Gcd(3, 3) == 3 && LibraryPair(2, -1, 3, 5)
  {}

  /** The hypotheses of `RevokedForever` can be met, here by revoking x and then y. */
  lemma RevocationInstance() returns (k: Key, v: int, x: nat, y: nat)
    ensures k.Safe() && QuadraticResidue(v, k.N()) && v != 1
    ensures 1 < x < k.MinHalf() && Unit(x, k.Phi()) && Unit(y, k.Phi())
    ensures Gcd(x, x) == x && IsBezout(1, 0, x, x) && Gcd(x, y) == 1 && LibraryPair(2, -1, x, y)
    ensures var v' := Root(k, v, x);
      var w := UpdatedWitness(k.N(), v', v', 1, 0);
      && Verifies(k.N(), v, x, v') && !Verifies(k.N(), v', x, w)
      && !Verifies(k.N(), Root(k, v', y), x, UpdatedWitness(k.N(), Root(k, v', y), w, 2, -1))
  {
    hide Unit, ModPow, Root, UpdatedWitness, Gcd, QuadraticResidue, IsBezout, LibraryPair;
    k, v, x, y := SmallSetting();
    RootIsRoot(k, v, x);
    OneUpdateLater(k, v, Root(k, v, x), x, x, 1, 0, y, 2, -1);
  }
}
