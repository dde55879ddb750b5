/** The CL-RSA-B benchmark scenarios, end to end. */
module BenchClRsaB {
  import opened Arithmetic
  import opened Bytes
  import opened Modular
  import opened Options
  import opened Rsa
  import opened Roots
  import opened Updates
  import opened CLRSAB
  import opened HashToPrime
  import MP = MembershipProof

  /** Some attempt of `hash_to_prime` on this input hits a prime. */
  ghost predicate Hits(h: Hash, input: seq<Byte>) {
    exists tries: nat :: IsPrime(Candidate(h, input, tries))
  }

  /** `BigNumber::prime(H2P_SIZE)`. */
  ghost predicate HolderPrime(x: nat) {
    IsPrime(x) && Pow2(255) <= x < Pow2(256)
  }

  lemma HolderPrimeInverts(k: Key, x: nat)
    requires LargeKey(k) && HolderPrime(x)
    ensures 0 < x <= k.MinHalf() && Unit(x, k.Phi())
  {
    hide Pow2, Unit, IsPrime;
    LargeHalves(k);
    Pow2Increases(1, 255);
    PowOneIsTwo();
    SmallPrimeIsInvertible(k, x);
  }

  /** The elements of `build_update_setup`: one hashed prime per index. */
  method HashedElements(h: Hash, count: nat) returns (elements: seq<nat>)
    requires forall i: nat | i < count :: Hits(h, BigEndian(i, 8))
    ensures |elements| == count
    ensures forall i | 0 <= i < count :: IsHashOf(h, BigEndian(i, 8), elements[i]) && InHashRange(elements[i])
  {
    hide IsPrime, InHashRange, IsHashOf, BigEndian, Candidate, Pow2;
    elements := [];
    for i := 0 to count
      invariant |elements| == i
      invariant forall j | 0 <= j < i :: IsHashOf(h, BigEndian(j, 8), elements[j]) && InHashRange(elements[j])
    {
      ghost var tries: nat :| IsPrime(Candidate(h, BigEndian(i, 8), tries));
      var prime := HashToPrime.HashToPrime(h, BigEndian(i, 8), tries);
      elements := elements + [prime];
    }
  }

  /** `build_update_setup` and the timed closure: issue a witness for the holder, revoke all
      the hashed elements in one batch, update the witness, verify it.  The closure returns
      true for every batch size exactly when the holder is not among the revoked. */
  method WitnessUpdateCase(h: Hash, count: nat, myElem: nat, p: nat, q: nat, sample: nat)
    returns (ok: bool, toRevoke: seq<nat>)
    requires forall i: nat | i < count :: Hits(h, BigEndian(i, 8))
    requires LargeKey(Key(p, q)) && HolderPrime(myElem)
    requires Unit(sample, Key(p, q).N()) && Square(sample, Key(p, q).N()) != 1
    ensures |toRevoke| == count
    ensures forall i | 0 <= i < count :: IsHashOf(h, BigEndian(i, 8), toRevoke[i]) && InHashRange(toRevoke[i])
    ensures ok <==> myElem !in toRevoke
  {
    hide Unit, IsPrime, InHashRange, BigEndian, Candidate, ModMul, ModPow, Pow2, Root, Gcd;
    toRevoke := HashedElements(h, count);
    forall i | 0 <= i < count ensures IsPrime(toRevoke[i]) {
      assert IsHashOf(h, BigEndian(i, 8), toRevoke[i]);
    }
    ghost var k := Key(p, q);
    HolderPrimeInverts(k, myElem);
    InversionsNeverFail(k, toRevoke);
    var all := new ElementList(toRevoke + [myElem]);
    var acc, aux := Accumulator.NewWithElements(all.items, p, q, sample);
    ghost var before := acc.value;
    var mine := acc.WitnessMem(myElem, aux, all);
    var update := acc.UpdateAfterRemoveBatch(toRevoke, aux, all);
    var updated := acc.Update(mine, Some(myElem), update.value);
    ok := acc.VerifyMem(myElem, updated);
    RevokedBatch(k, before, mine.u, myElem, toRevoke, updated.u);
  }

  lemma RevokedBatch(k: Key, v: int, u: int, x: nat, xs: seq<nat>, w: int)
    requires LargeKey(k) && HolderPrime(x) && Invertible(xs, k.Phi())
    requires forall i | 0 <= i < |xs| :: IsPrime(xs[i])
    requires QuadraticResidue(v, k.N()) && v != 1 && Residue(u, k.N()) && Verifies(k.N(), v, x, u)
    requires exists a, b :: LibraryPair(a, b, x, Product(xs)) && w == UpdatedWitness(k.N(), ValueAfter(k, v, xs), u, a, b)
    ensures Verifies(k.N(), ValueAfter(k, v, xs), x, w) <==> x !in xs
  {
    hide Unit, ModMul, ModPow, Pow2, Root, Gcd, UpdatedWitness, Verifies, Divides;
    HolderPrimeInverts(k, x);
    RootOfQuadraticResidue(k, v, x);
    BatchReachesLoopValue(k, v, xs);
    PrimeAgainstProduct(x, xs);
    var a, b :| LibraryPair(a, b, x, Product(xs)) && w == UpdatedWitness(k.N(), ValueAfter(k, v, xs), u, a, b);
    UpdatedVerifiesIffCoprime(k, v, u, x, Product(xs), a, b);
  }

  /** `build_proof_setup`, the prover and the timed verifier: always accepted. */
  method ProofCase(o: MP.Oracle, myElem: nat, p: nat, q: nat, sample: nat, g: nat, exp: nat, r: MP.Sample, extra: seq<Byte>)
    returns (ok: bool)
    requires Key(p, q).Valid() && Unit(sample, Key(p, q).N()) && Unit(g, Key(p, q).N())
    requires Unit(myElem, Key(p, q).Phi())
    ensures ok
  {
    hide Unit, IsPrime, ModMul, ModPow, Root, MP.Accepts, MP.ProveMem;
    var elems := new ElementList([myElem]);
    var acc, aux := Accumulator.NewWithElements(elems.items, p, q, sample);
    var mine := acc.WitnessMem(myElem, aux, elems);
    RootOfUnit(Key(p, q), acc.value, myElem);
    MP.ParamsAreUnits(acc.modulus, g, exp);
    var params := MP.GenParam(acc.modulus, g, exp);
    var proof := MP.ProveMem(o, acc.modulus, params, myElem, mine.u, r, extra);
    MP.Completeness(o, acc.modulus, acc.value, params, myElem, mine.u, r, extra);
    ok := MP.VerifyMemProof(o, acc.modulus, acc.value, params, proof, extra);
  }
}
