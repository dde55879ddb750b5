/** The signed-pairs range statement: Pedersen differences that encode
    lower < handle < upper.  The commitment group has the scalar field's order, so its
    elements are written additively as residues modulo that order; the two generators are
    arbitrary elements. */
module GapProof {
  import opened Arithmetic
  import opened Modular

  const TWO64: nat := 0x1_0000_0000_0000_0000

  type U64 = x: int | 0 <= x < 0x1_0000_0000_0000_0000

  datatype Generators = Generators(g: int, h: int)

  /** v*G + r*H. */
  function Commit(gens: Generators, v: int, r: int, m: Modulus): int {
    (v * gens.g + r * gens.h) % m
  }

  function Sub(a: int, b: int, m: Modulus): int {
    (a - b) % m
  }

  /** C_L, C_H and C_U of a composite proof. */
  datatype Commitments = Commitments(l: int, h: int, u: int)

  /** D1 = C_H - C_L - G and D2 = C_U - C_H - G: what the verifier rebuilds. */
  function Differences(gens: Generators, c: Commitments, m: Modulus): (int, int) {
    (Sub(Sub(c.h, c.l, m), gens.g, m), Sub(Sub(c.u, c.h, m), gens.g, m))
  }

  /** The three commitment statements with their equalities to the credential's attributes
      (lower_id, upper_id, expiry, handle). */
  ghost predicate CompositeStatement(gens: Generators, attributes: seq<int>, c: Commitments,
                                     rL: int, rH: int, rU: int, m: Modulus) {
    && |attributes| == 4
    && c.l == Commit(gens, attributes[0], rL, m)
    && c.u == Commit(gens, attributes[1], rU, m)
    && c.h == Commit(gens, attributes[3], rH, m)
  }

  /** What the prover commits to: the two bounds of its gap and its own handle. */
  function Committed(gens: Generators, lower: U64, handle: U64, upper: U64, rL: int, rH: int, rU: int, m: Modulus): Commitments {
    Commitments(Commit(gens, lower, rL, m), Commit(gens, handle, rH, m), Commit(gens, upper, rU, m))
  }

  /** For a credential (lower, upper, expiry, handle) the composite statement is true of the
      prover's commitments and of no others. */
  lemma StatementIffCommitted(gens: Generators, lower: U64, upper: U64, expiry: U64, handle: U64,
                              c: Commitments, rL: int, rH: int, rU: int, m: Modulus)
    ensures CompositeStatement(gens, [lower, upper, expiry, handle], c, rL, rH, rU, m)
       <==> c == Committed(gens, lower, handle, upper, rL, rH, rU, m)
  {
    hide Commit;
  }

  lemma SubReducedLeft(a: int, b: int, m: Modulus)
    ensures (a % m - b) % m == (a - b) % m
  {
    AddMultiple(a % m - b, a / m, m);
  }

  lemma SubReducedRight(a: int, b: int, m: Modulus)
    ensures (a - b % m) % m == (a - b) % m
  {
    AddMultiple(a - b, b / m, m);
  }

  lemma SubReduced(a: int, b: int, m: Modulus)
    ensures Sub(a % m, b % m, m) == Sub(a % m, b, m) == Sub(a, b, m)
  {
    SubReducedRight(a % m, b, m);
    SubReducedLeft(a, b, m);
  }

  /** One difference of commitments opens to the difference of the values, less one. */
  lemma DifferenceOpens(gens: Generators, v: int, r: int, w: int, s: int, m: Modulus)
    ensures Sub(Sub(Commit(gens, v, r, m), Commit(gens, w, s, m), m), gens.g, m)
         == Commit(gens, v - w - 1, r - s, m)
  {
    var a, b := v * gens.g + r * gens.h, w * gens.g + s * gens.h;
    SubReduced(a, b, m);
    SubReduced(a - b, gens.g, m);
    assert a - b - gens.g == (v - w - 1) * gens.g + (r - s) * gens.h;
  }

  /** Scalars live modulo m: reducing an opening does not change the commitment. */
  lemma CommitReduced(gens: Generators, v: int, r: int, m: Modulus)
    ensures Commit(gens, v % m, r % m, m) == Commit(gens, v, r, m)
  {
    ProductReduced(v, gens.g, m);
    ProductReduced(r, gens.h, m);
    var q, p := v / m * gens.g, r / m * gens.h;
    Distribute(m, q, p);
    AddMultiple((v % m) * gens.g + (r % m) * gens.h, q + p, m);
  }

  lemma ProductReduced(v: int, g: int, m: Modulus)
    ensures v * g == (v % m) * g + m * (v / m * g)
  {}

  /** Hiding: when h has an inverse, every value opens every commitment, under exactly one
      blinding. */
  lemma CommitmentHides(gens: Generators, v: int, c: int, r: int, m: Modulus)
    requires Unit(gens.h, m) && Residue(c, m) && Residue(r, m)
    ensures Commit(gens, v, r, m) == c <==> r == ModMul(c - v * gens.g, Inv(gens.h, m), m)
  {
    hide Unit, ModMul;
    var d, i := c - v * gens.g, Inv(gens.h, m);
    SumEqualsIff(v * gens.g, r * gens.h, c, m);
    MulMeans(r, gens.h, m);
    if ModMul(r, gens.h, m) == d % m {
      MulAssociates(r, gens.h, i, m);
      MulOne(r, m);
      MulReduced(d, i, m);
    }
    if r == ModMul(d, i, m) {
      MulAssociates(d, i, gens.h, m);
      MulOne(d, m);
    }
  }

  lemma MulMeans(x: int, y: int, m: Modulus)
    ensures ModMul(x, y, m) == (x * y) % m
  {}

  lemma SumEqualsIff(a: int, b: int, c: int, m: Modulus)
    requires Residue(c, m)
    ensures (a + b) % m == c <==> b % m == (c - a) % m
  {
    SmallRemainder(c, m);
    SubReducedLeft(a + b, a, m);
    AddReduced(c - a, a, m);
    AddReduced(b, a, m);
  }

  lemma AddReduced(a: int, b: int, m: Modulus)
    ensures (a % m + b) % m == (a + b) % m
  {
    AddMultiple(a % m + b, a / m, m);
  }

  /** Binding up to the blinding: when g has an inverse, one blinding opens a commitment to one
      scalar only. */
  lemma CommitmentBinds(gens: Generators, v: int, w: int, r: int, m: Modulus)
    requires Unit(gens.g, m)
    ensures Commit(gens, v, r, m) == Commit(gens, w, r, m) <==> v % m == w % m
  {
    hide Unit, ModMul;
    SumEqualsIff(r * gens.h, v * gens.g, (w * gens.g + r * gens.h) % m, m);
    SubReducedLeft(w * gens.g + r * gens.h, r * gens.h, m);
    MulMeans(v, gens.g, m);
    MulMeans(w, gens.g, m);
    MulReduced(v, gens.g, m);
    MulReduced(w, gens.g, m);
    MulCommutes(v % m, gens.g, m);
    MulCommutes(w % m, gens.g, m);
    if ModMul(gens.g, v % m, m) == ModMul(gens.g, w % m, m) {
      Cancel(gens.g, v % m, w % m, m);
    }
  }

  lemma SmallDifference(d: int, m: Modulus)
    requires 0 - m <= d < m
    ensures d % m == if d < 0 then d + m else d
  {}

  /** A field element d of a difference of ids is below `range` exactly when the ids are
      strictly ordered and at most `range` apart. */
  lemma OrderedIffInRange(low: U64, high: U64, range: nat, m: Modulus)
    requires m >= range + TWO64
    ensures (high - low - 1) % m < range <==> low < high && high - low <= range
  {}

  /** For all ids and blindings: the rebuilt D1 and D2 open to handle - lower - 1 and
      upper - handle - 1, as scalars, and both scalars are below `range` exactly when the handle
      lies strictly between the bounds and within `range` of each. */
  lemma RangeStatementEncodesGap(gens: Generators, lower: U64, upper: U64, expiry: U64, handle: U64,
                                 c: Commitments, rL: int, rH: int, rU: int, range: nat, m: Modulus)
    requires m >= range + TWO64
    requires CompositeStatement(gens, [lower, upper, expiry, handle], c, rL, rH, rU, m)
    ensures var (d1, d2) := Differences(gens, c, m);
      var v1, v2 := (handle - lower - 1) % m, (upper - handle - 1) % m;
      && d1 == Commit(gens, v1, (rH - rL) % m, m)
      && d2 == Commit(gens, v2, (rU - rH) % m, m)
      && (v1 < range && v2 < range <==>
            lower < handle < upper && handle - lower <= range && upper - handle <= range)
  {
    hide Commit, Sub;
    DifferenceOpens(gens, handle, rH, lower, rL, m);
    DifferenceOpens(gens, upper, rU, handle, rH, m);
    CommitReduced(gens, handle - lower - 1, rH - rL, m);
    CommitReduced(gens, upper - handle - 1, rU - rH, m);
    OrderedIffInRange(lower, handle, range, m);
    OrderedIffInRange(handle, upper, range, m);
  }

  /** The prover's witness `high - low - 1`, computed in wrapping 64-bit arithmetic. */
  function WrappedDiff(low: U64, high: U64): U64 {
    (high - low - 1) % TWO64
  }

  /** The 64-bit witness is the scalar that the difference opens to exactly when the ids are
      strictly ordered. */
  lemma WitnessOpensIffOrdered(low: U64, high: U64, m: Modulus)
    requires m > TWO64
    ensures WrappedDiff(low, high) == (high - low - 1) % m <==> low < high
  {
    SmallDifference(high - low - 1, m);
    SmallDifference(high - low - 1, TWO64);
  }
}
