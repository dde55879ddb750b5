/** The non-interactive membership proof: prover and verifier, when the prover's output is
    accepted, and what can be computed from accepted transcripts. */
module MembershipProof {
  import opened Arithmetic
  import opened Bytes
  import opened Modular
  import opened Rsa
  import opened Roots
  import opened Updates

  const H2P_SIZE: nat := 256
  const CHALLENGE_SIZE: nat := 256
  const NONCE_SIZE: nat := 80

  datatype Params = Params(g: int, h: int)

  datatype Proof = Proof(
    c_u: int, c_e: int, c_r: int,
    t_1: int, t_2: int, t_3: int, t_4: int,
    s_alpha: int, s_beta: int, s_delta: int, s_epsilon: int, s_zeta: int, s_eta: int)

  /** Everything `prove_mem` samples. */
  datatype Sample = Sample(
    r_1: int, r_2: int, r_3: int,
    alpha: int, beta: int, delta: int, epsilon: int, zeta: int, eta: int)

  /** The external parts of the challenge: BigNumber's byte encoding, and BLAKE3 in
      extendable-output mode as the i-th output byte for an absorbed input. */
  datatype Oracle = Oracle(toBytes: int -> seq<Byte>, xof: (seq<Byte>, nat) -> Byte)

  // ----- the challenge -----

  function Encoded(toBytes: int -> seq<Byte>, nums: seq<int>): seq<Byte> {
    if nums == [] then [] else Encoded(toBytes, nums[..|nums| - 1]) + toBytes(nums[|nums| - 1])
  }

  /** What the hasher absorbs: the parameters, the numbers and `extra`, without separators. */
  function Absorbed(toBytes: int -> seq<Byte>, params: Params, nums: seq<int>, extra: seq<Byte>): seq<Byte> {
    Encoded(toBytes, [params.g, params.h] + nums) + extra
  }

  function Challenge(o: Oracle, params: Params, nums: seq<int>, extra: seq<Byte>): (c: nat) {
    var input := Absorbed(o.toBytes, params, nums, extra);
    FromBytes(seq(CHALLENGE_SIZE / 8, i requires i >= 0 => o.xof(input, i)))
  }

  lemma ChallengeBound(o: Oracle, params: Params, nums: seq<int>, extra: seq<Byte>)
    ensures Challenge(o, params, nums, extra) < Pow2(CHALLENGE_SIZE)
  {
    hide Pow2, Absorbed;
    var input := Absorbed(o.toBytes, params, nums, extra);
    FromBytesBound(seq(CHALLENGE_SIZE / 8, i requires i >= 0 => o.xof(input, i)));
  }

  method HashToKBits(o: Oracle, params: Params, nums: seq<int>, extra: seq<Byte>) returns (c: nat)
    ensures c == Challenge(o, params, nums, extra)
    ensures c < Pow2(CHALLENGE_SIZE)
  {
    hide Pow2;
    ghost var all := [params.g, params.h] + nums;
    assert all[..0] == [] && all[..1] == [params.g] && all[..2] == [params.g, params.h];
    var absorbed: seq<Byte> := o.toBytes(params.g);
    absorbed := absorbed + o.toBytes(params.h);
    assert absorbed == Encoded(o.toBytes, all[..2]) by {
      assert all[..2][..1] == all[..1] && all[..1][..0] == all[..0];
      assert Encoded(o.toBytes, all[..1]) == Encoded(o.toBytes, []) + o.toBytes(params.g);
    }
    for i := 0 to |nums|
      invariant absorbed == Encoded(o.toBytes, all[..i + 2])
    {
      assert all[..i + 1 + 2][..i + 2] == all[..i + 2];
      absorbed := absorbed + o.toBytes(nums[i]);
    }
    assert all[..|nums| + 2] == all;
    absorbed := absorbed + extra;
    var hash := new Byte[CHALLENGE_SIZE / 8];
    for i := 0 to hash.Length
      invariant forall j | 0 <= j < i :: hash[j] == o.xof(absorbed, j)
    {
      hash[i] := o.xof(absorbed, i);
    }
    assert hash[..] == seq(CHALLENGE_SIZE / 8, i requires i >= 0 => o.xof(absorbed, i));
    ChallengeBound(o, params, nums, extra);
    c := FromBytes(hash[..]);
  }

  // ----- two-base commitments -----

  /** a^x * b^y. */
  function Com(a: int, b: int, x: int, y: int, n: Modulus): (r: int)
    ensures Residue(r, n)
  {
    ModMul(ModPow(a, x, n), ModPow(b, y, n), n)
  }

  ghost predicate Units(a: int, b: int, n: Modulus) {
    Unit(a, n) && Unit(b, n)
  }

  lemma ComIsUnit(a: int, b: int, x: int, y: int, n: Modulus)
    requires Units(a, b, n)
    ensures Unit(Com(a, b, x, y, n), n)
  {
    hide Unit, ModMul, ModPow;
    PowUnit(a, x, n);
    PowUnit(b, y, n);
    UnitProduct(ModPow(a, x, n), ModPow(b, y, n), n);
  }

  lemma ComProduct(a: int, b: int, x: int, y: int, x': int, y': int, n: Modulus)
    requires Units(a, b, n)
    ensures ModMul(Com(a, b, x, y, n), Com(a, b, x', y', n), n) == Com(a, b, x + x', y + y', n)
  {
    hide Unit, ModMul, ModPow;
    MulSwap(ModPow(a, x, n), ModPow(b, y, n), ModPow(a, x', n), ModPow(b, y', n), n);
    PowAdd(a, x, x', n);
    PowAdd(b, y, y', n);
  }

  lemma ComPower(a: int, b: int, x: int, y: int, e: int, n: Modulus)
    requires Units(a, b, n)
    ensures ModPow(Com(a, b, x, y, n), e, n) == Com(a, b, x * e, y * e, n)
  {
    hide Unit, ModMul, ModPow;
    PowUnit(a, x, n);
    PowUnit(b, y, n);
    PowProduct(ModPow(a, x, n), ModPow(b, y, n), e, n);
    PowMul(a, x, e, n);
    PowMul(b, y, e, n);
  }

  lemma ComCommutes(a: int, b: int, x: int, y: int, n: Modulus)
    ensures Com(a, b, x, y, n) == Com(b, a, y, x, n)
  {}

  // ----- prover and verifier -----

  /** `gen_param`: g a quadratic residue, h a power of g. */
  function GenParam(n: Modulus, sample: int, exp: nat): Params {
    var g := Square(sample, n);
    Params(g, ModPow(g, exp, n))
  }

  lemma ParamsAreUnits(n: Modulus, sample: int, exp: nat)
    requires Unit(sample, n)
    ensures var p := GenParam(n, sample, exp);
      && UnitResidue(p.g, n) && UnitResidue(p.h, n)
      && QuadraticResidue(p.g, n) && QuadraticResidue(p.h, n)
      && Residue(p.g, n) && Divides(n, sample * sample - p.g)
      && p.h == ModPow(p.g, exp, n)
  {
    hide Unit, ModMul, ModPow, Divides;
    SquareIsProduct(sample, n);
    SquareIsUnit(sample, n);
    PowUnit(Square(sample, n), exp, n);
    PowerOfQuadraticResidue(Square(sample, n), exp, n);
  }

  /** The challenge of a proof: both sides hash the same seven numbers in the same order. */
  function ProofChallenge(o: Oracle, params: Params, p: Proof, extra: seq<Byte>): nat {
    Challenge(o, params, [p.c_e, p.c_u, p.c_r, p.t_1, p.t_2, p.t_3, p.t_4], extra)
  }

  function ProveMem(o: Oracle, n: Modulus, params: Params, item: nat, u: int, r: Sample, extra: seq<Byte>): Proof {
    var Params(g, h) := params;
    var c_e := ModMul(ModPow(g, item, n), ModPow(h, r.r_1, n), n);
    var c_u := ModMul(u, ModPow(h, r.r_2, n), n);
    var c_r := ModMul(ModPow(h, r.r_2, n), ModPow(g, r.r_3, n), n);
    var t_1 := ModMul(ModPow(h, r.epsilon, n), ModPow(g, r.zeta, n), n);
    var t_2 := ModMul(ModPow(g, r.alpha, n), ModPow(h, r.eta, n), n);
    var t_3 := ModMul(ModPow(c_u, r.alpha, n), ModPow(h, -r.beta, n), n);
    var t_4 := ModMul(ModMul(ModPow(c_r, r.alpha, n), ModPow(g, -r.delta, n), n), ModPow(h, -r.beta, n), n);
    var c := Challenge(o, params, [c_e, c_u, c_r, t_1, t_2, t_3, t_4], extra);
    Proof(c_u, c_e, c_r, t_1, t_2, t_3, t_4,
          r.alpha - c * item,
          r.beta - c * r.r_2 * item,
          r.delta - c * r.r_3 * item,
          r.epsilon - c * r.r_2,
          r.zeta - c * r.r_3,
          r.eta - c * r.r_1)
  }

  /** The four verification equations, for a given challenge. */
  predicate Equations(n: Modulus, value: int, params: Params, p: Proof, c: int) {
    var Params(g, h) := params;
    && p.t_1 == ModMul(ModMul(ModPow(p.c_r, c, n), ModPow(h, p.s_epsilon, n), n), ModPow(g, p.s_zeta, n), n)
    && p.t_2 == ModMul(ModMul(ModPow(p.c_e, c, n), ModPow(g, p.s_alpha, n), n), ModPow(h, p.s_eta, n), n)
    && p.t_3 == ModMul(ModMul(ModPow(value, c, n), ModPow(p.c_u, p.s_alpha, n), n), ModPow(h, -p.s_beta, n), n)
    && p.t_4 == ModMul(ModMul(ModPow(p.c_r, p.s_alpha, n), ModPow(g, -p.s_delta, n), n), ModPow(h, -p.s_beta, n), n)
  }

  /** The four equations for the challenge recomputed from the proof. */
  predicate Accepts(o: Oracle, n: Modulus, value: int, params: Params, p: Proof, extra: seq<Byte>) {
    Equations(n, value, params, p, ProofChallenge(o, params, p, extra))
  }

  const ALPHA_BOUND: nat := Pow2(H2P_SIZE + CHALLENGE_SIZE + NONCE_SIZE + 1)

  /** |x| < bound: the test the comment at the end of the verifier asks for. */
  predicate Within(x: int, bound: int) {
    -bound < x < bound
  }

  /** The test as coded: it compares the non-positive one of x and -x. */
  predicate SignTest(x: int, bound: int) {
    (if x < 0 then x else -x) < bound
  }

  /** The coded test rejects nothing. */
  lemma SignTestNeverRejects(x: int)
    ensures SignTest(x, ALPHA_BOUND)
  {}

  /** The verifier that the comment describes: the equations, and s_alpha inside the bound. */
  predicate IntendedVerifier(n: Modulus, value: int, params: Params, p: Proof, c: int) {
    Equations(n, value, params, p, c) && Within(p.s_alpha, ALPHA_BOUND)
  }

  /** `verify_mem_proof`.  Its last test never rejects, so the result is exactly the four
      equations for the recomputed challenge.  The answer is the intended one if and only if
      the equations fail or s_alpha is inside the bound. */
  method VerifyMemProof(o: Oracle, n: Modulus, value: int, params: Params, p: Proof, extra: seq<Byte>)
    returns (check: bool)
    ensures check <==> Accepts(o, n, value, params, p, extra)
    ensures var c := ProofChallenge(o, params, p, extra);
      (check <==> IntendedVerifier(n, value, params, p, c))
      <==> !Equations(n, value, params, p, c) || Within(p.s_alpha, ALPHA_BOUND)
  {
    hide Unit, ModMul, ModPow, Pow2;
    var Params(g, h) := params;
    var c := HashToKBits(o, params, [p.c_e, p.c_u, p.c_r, p.t_1, p.t_2, p.t_3, p.t_4], extra);
    check := true;
    check := check && p.t_1 == ModMul(ModMul(ModPow(p.c_r, c, n), ModPow(h, p.s_epsilon, n), n), ModPow(g, p.s_zeta, n), n);
    check := check && p.t_2 == ModMul(ModMul(ModPow(p.c_e, c, n), ModPow(g, p.s_alpha, n), n), ModPow(h, p.s_eta, n), n);
    check := check && p.t_3 == ModMul(ModMul(ModPow(value, c, n), ModPow(p.c_u, p.s_alpha, n), n), ModPow(h, -p.s_beta, n), n);
    check := check && p.t_4 == ModMul(ModMul(ModPow(p.c_r, p.s_alpha, n), ModPow(g, -p.s_delta, n), n), ModPow(h, -p.s_beta, n), n);
    var s_alpha := if p.s_alpha < 0 then p.s_alpha else -p.s_alpha;
    SignTestNeverRejects(p.s_alpha);
    check := check && s_alpha < ALPHA_BOUND;
  }

  // ----- completeness -----

  /** One linear response per base undoes the challenge power. */
  lemma SigmaStep(a: int, b: int, x: int, y: int, c: int, ra: int, rb: int, n: Modulus)
    requires Units(a, b, n)
    ensures ModMul(ModMul(ModPow(Com(a, b, x, y, n), c, n), ModPow(a, ra - c * x, n), n), ModPow(b, rb - c * y, n), n)
         == Com(a, b, ra, rb, n)
  {
    hide Unit, ModMul, ModPow;
    MulAssociates(ModPow(Com(a, b, x, y, n), c, n), ModPow(a, ra - c * x, n), ModPow(b, rb - c * y, n), n);
    ComPower(a, b, x, y, c, n);
    MulCommutative(x, c);
    MulCommutative(y, c);
    ComProduct(a, b, x * c, y * c, ra - c * x, rb - c * y, n);
  }

  /** A valid witness, blinded, expresses the value over the bases c_u and h. */
  lemma BlindedWitness(n: Modulus, value: int, u: int, x: int, h: int, r: int)
    requires Units(u, h, n) && Residue(value, n) && ModPow(u, x, n) == value
    ensures var c_u := ModMul(u, ModPow(h, r, n), n);
      Unit(c_u, n) && value == Com(c_u, h, x, -(r * x), n)
  {
    hide Unit, ModMul, ModPow;
    var hr := ModPow(h, r, n);
    PowUnit(h, r, n);
    UnitProduct(u, hr, n);
    PowProduct(u, hr, x, n);
    PowMul(h, r, x, n);
    MulAssociates(value, ModPow(h, r * x, n), ModPow(h, -(r * x), n), n);
    PowNegate(h, r * x, n);
    MulOne(value, n);
  }

  /** The fourth equation: a power of c_r against its opening. */
  lemma OpeningStep(g: int, h: int, r2: int, r3: int, ra: int, e: int, rd: int, rb: int, n: Modulus)
    requires Units(g, h, n)
    ensures var c_r := Com(h, g, r2, r3, n);
      ModMul(ModMul(ModPow(c_r, ra - e, n), ModPow(g, -(rd - r3 * e), n), n), ModPow(h, -(rb - r2 * e), n), n)
      == ModMul(ModMul(ModPow(c_r, ra, n), ModPow(g, -rd, n), n), ModPow(h, -rb, n), n)
  {
    hide Unit, ModMul, ModPow, Com;
    var c_r := Com(h, g, r2, r3, n);
    ComIsUnit(h, g, r2, r3, n);
    var A := ModPow(c_r, ra, n);
    ThreeFactors(c_r, g, h, ra - e, -(rd - r3 * e), -(rb - r2 * e), n);
    ThreeFactors(c_r, g, h, ra, -rd, -rb, n);
    calc {
      ModMul(ModPow(c_r, ra - e, n), Com(g, h, r3 * e - rd, r2 * e - rb, n), n);
      { PowAdd(c_r, ra, -e, n); ComPower(h, g, r2, r3, -e, n); ComCommutes(h, g, r2 * -e, r3 * -e, n); }
      ModMul(ModMul(A, Com(g, h, r3 * -e, r2 * -e, n), n), Com(g, h, r3 * e - rd, r2 * e - rb, n), n);
      { MulAssociates(A, Com(g, h, r3 * -e, r2 * -e, n), Com(g, h, r3 * e - rd, r2 * e - rb, n), n); }
      ModMul(A, ModMul(Com(g, h, r3 * -e, r2 * -e, n), Com(g, h, r3 * e - rd, r2 * e - rb, n), n), n);
      { ComProduct(g, h, r3 * -e, r2 * -e, r3 * e - rd, r2 * e - rb, n); NegatedProduct(r3, e); NegatedProduct(r2, e); }
      ModMul(A, Com(g, h, -rd, -rb, n), n);
    }
  }

  lemma ThreeFactors(a: int, b: int, c: int, x: int, y: int, z: int, n: Modulus)
    ensures ModMul(ModMul(ModPow(a, x, n), ModPow(b, y, n), n), ModPow(c, z, n), n)
         == ModMul(ModPow(a, x, n), Com(b, c, y, z, n), n)
  {
    hide Unit, ModMul, ModPow;
    MulAssociates(ModPow(a, x, n), ModPow(b, y, n), ModPow(c, z, n), n);
  }

  /** Completeness: for every valid witness, every sampling and every `extra`, the prover's
      output satisfies the equations for the challenge the verifier recomputes from it. */
  lemma Completeness(o: Oracle, n: Modulus, value: int, params: Params, item: nat, u: int, r: Sample, extra: seq<Byte>)
    requires Residue(value, n) && Unit(u, n) && Units(params.g, params.h, n)
    requires Verifies(n, value, item, u)
    ensures Accepts(o, n, value, params, ProveMem(o, n, params, item, u, r, extra), extra)
  {
    hide Unit, ModMul, ModPow, Challenge;
    var Params(g, h) := params;
    var p := ProveMem(o, n, params, item, u, r, extra);
    var c := ProofChallenge(o, params, p, extra);
    SigmaStep(h, g, r.r_2, r.r_3, c, r.epsilon, r.zeta, n);
    SigmaStep(g, h, item, r.r_1, c, r.alpha, r.eta, n);
    BlindedWitness(n, value, u, item, h, r.r_2);
    ReorderProduct(c, r.r_2, item);
    ReorderProduct(c, r.r_3, item);
    SigmaStep(p.c_u, h, item, -(r.r_2 * item), c, r.alpha, -r.beta, n);
    OpeningStep(g, h, r.r_2, r.r_3, r.alpha, c * item, r.delta, r.beta, n);
  }

  lemma ReorderProduct(c: int, r: int, x: int)
    ensures c * r * x == r * (c * x) && c * -(r * x) == -(c * r * x)
  {}

  // ----- the converse of completeness -----

  /** Which presentations are accepted: the output of the prover for any item and any unit u
      satisfies the equations exactly when the value and u^item have the same power to the
      challenge. */
  lemma AcceptedIffPowersAgree(o: Oracle, n: Modulus, value: int, params: Params, item: nat, u: int, r: Sample,
                               extra: seq<Byte>)
    requires Unit(value, n) && Unit(u, n) && Units(params.g, params.h, n)
    ensures var p := ProveMem(o, n, params, item, u, r, extra);
      var c := ProofChallenge(o, params, p, extra);
      Accepts(o, n, value, params, p, extra) <==> ModPow(value, c, n) == ModPow(ModPow(u, item, n), c, n)
  {
    hide Unit, ModMul, ModPow, ProofChallenge;
    var h := params.h;
    var p := ProveMem(o, n, params, item, u, r, extra);
    var c := ProofChallenge(o, params, p, extra);
    var own := ModPow(u, item, n);
    Completeness(o, n, own, params, item, u, r, extra);
    PowUnit(h, r.r_2, n);
    UnitProduct(u, ModPow(h, r.r_2, n), n);
    CancelFactors(ModPow(value, c, n), ModPow(own, c, n), p.c_u, p.s_alpha, h, -p.s_beta, n);
  }

  lemma CancelFactors(x: int, y: int, a: int, e: int, b: int, f: int, n: Modulus)
    requires Units(a, b, n) && Residue(x, n) && Residue(y, n)
    ensures (ModMul(ModMul(x, ModPow(a, e, n), n), ModPow(b, f, n), n)
          == ModMul(ModMul(y, ModPow(a, e, n), n), ModPow(b, f, n), n)) <==> x == y
  {
    hide Unit, ModMul, ModPow;
    var z := Com(a, b, e, f, n);
    ComIsUnit(a, b, e, f, n);
    MulAssociates(x, ModPow(a, e, n), ModPow(b, f, n), n);
    MulAssociates(y, ModPow(a, e, n), ModPow(b, f, n), n);
    MulCommutes(x, z, n);
    MulCommutes(y, z, n);
    if ModMul(z, x, n) == ModMul(z, y, n) {
      Cancel(z, x, y, n);
    }
  }

  /** The converse of completeness: for a challenge that is invertible modulo phi, the prover's
      output is accepted exactly when the witness is valid. */
  lemma AcceptedIffVerifies(o: Oracle, k: Key, value: int, params: Params, item: nat, u: int, r: Sample, extra: seq<Byte>)
    requires k.Valid() && UnitResidue(value, k.N()) && Unit(u, k.N()) && Units(params.g, params.h, k.N())
    requires Unit(ProofChallenge(o, params, ProveMem(o, k.N(), params, item, u, r, extra), extra), k.Phi())
    ensures Accepts(o, k.N(), value, params, ProveMem(o, k.N(), params, item, u, r, extra), extra)
       <==> Verifies(k.N(), value, item, u)
  {
    hide Unit, ModMul, ModPow, ProofChallenge, Accepts, ProveMem;
    var n := k.N();
    var c := ProofChallenge(o, params, ProveMem(o, n, params, item, u, r, extra), extra);
    var own := ModPow(u, item, n);
    AcceptedIffPowersAgree(o, n, value, params, item, u, r, extra);
    if ModPow(value, c, n) == ModPow(own, c, n) {
      PowUnit(u, item, n);
      UnitRootIsUnique(k, value, own, c);
      SmallRemainder(value, n);
      SmallRemainder(own, n);
    }
  }

  /** With safe primes above the challenge range and quadratic residues for value and witness,
      an invalid witness is accepted for the challenge 0 only. */
  lemma AcceptedIffVerifiesOrZero(o: Oracle, k: Key, value: int, params: Params, item: nat, u: int, r: Sample,
                                  extra: seq<Byte>)
    requires k.Safe() && Pow2(CHALLENGE_SIZE) <= k.MinHalf()
    requires QuadraticResidue(value, k.N()) && QuadraticResidue(u, k.N()) && Units(params.g, params.h, k.N())
    ensures var p := ProveMem(o, k.N(), params, item, u, r, extra);
      Accepts(o, k.N(), value, params, p, extra)
      <==> Verifies(k.N(), value, item, u) || ProofChallenge(o, params, p, extra) == 0
  {
    hide Unit, ModMul, ModPow, Pow2, Challenge, Accepts, QuadraticResidue, Key.N, Key.MinHalf;
    var n := k.N();
    var p := ProveMem(o, n, params, item, u, r, extra);
    var c := ProofChallenge(o, params, p, extra);
    var own := ModPow(u, item, n);
    QuadraticResidueIsUnit(value, n);
    QuadraticResidueIsUnit(u, n);
    AcceptedIffPowersAgree(o, n, value, params, item, u, r, extra);
    ChallengeBound(o, params, [p.c_e, p.c_u, p.c_r, p.t_1, p.t_2, p.t_3, p.t_4], extra);
    if c == 0 {
      PowZero(value, n);
      PowZero(own, n);
    } else if ModPow(value, c, n) == ModPow(own, c, n) {
      PowerOfQuadraticResidue(u, item, n);
      SmallPowerIsInjective(k, value, own, c);
    }
  }

  // ----- extraction -----

  /** Two answers to different challenges, divided: the commitment's power by the challenge
      difference opens to the response differences. */
  lemma ResponseDifference(x: int, a: int, b: int, c: int, y: int, z: int, c': int, y': int, z': int, n: Modulus)
    requires Unit(x, n) && Units(a, b, n)
    requires ModMul(ModMul(ModPow(x, c, n), ModPow(a, y, n), n), ModPow(b, z, n), n)
          == ModMul(ModMul(ModPow(x, c', n), ModPow(a, y', n), n), ModPow(b, z', n), n)
    ensures ModPow(x, c - c', n) == Com(a, b, y' - y, z' - z, n)
  {
    hide Unit, ModMul, ModPow, Com;
    ThreeFactors(x, a, b, c, y, z, n);
    ThreeFactors(x, a, b, c', y', z', n);
    var X', Y := ModPow(x, c', n), Com(a, b, y, z, n);
    PowUnit(x, c', n);
    ComIsUnit(a, b, y, z, n);
    UnitProduct(X', Y, n);
    PowAdd(x, c', c - c', n);
    ComProduct(a, b, y, z, y' - y, z' - z, n);
    var P, Q := ModPow(x, c - c', n), Com(a, b, y' - y, z' - z, n);
    assert ModMul(ModMul(X', P, n), Y, n) == ModMul(X', ModMul(Y, Q, n), n);
    calc {
      ModMul(ModMul(X', Y, n), P, n);
      { MulAssociates(X', Y, P, n); MulCommutes(Y, P, n); MulAssociates(X', P, Y, n); }
      ModMul(ModMul(X', P, n), Y, n);
      ModMul(X', ModMul(Y, Q, n), n);
      { MulAssociates(X', Y, Q, n); }
      ModMul(ModMul(X', Y, n), Q, n);
    }
    Cancel(ModMul(X', Y, n), P, Q, n);
  }

  /** If the exponents are multiples of d, the d-th power on the left comes off. */
  lemma ComRoot(k: Key, x: int, a: int, b: int, d: int, y: int, z: int)
    requires k.Valid() && Unit(d, k.Phi())
    requires Unit(x, k.N()) && Units(a, b, k.N())
    requires ModPow(x, d, k.N()) == Com(a, b, y * d, z * d, k.N())
    ensures x % k.N() == Com(a, b, y, z, k.N())
  {
    hide Unit, ModMul, ModPow, Com;
    ComIsUnit(a, b, y, z, k.N());
    ComPower(a, b, y, z, d, k.N());
    UnitRootIsUnique(k, x, Com(a, b, y, z, k.N()), d);
    SmallRemainder(Com(a, b, y, z, k.N()), k.N());
  }

  /** A d-th power that opens gives an opening, with exponents times the inverse of d. */
  lemma ComInverse(k: Key, x: int, a: int, b: int, d: int, y: int, z: int)
    requires k.Valid() && Unit(d, k.Phi())
    requires Unit(x, k.N()) && Units(a, b, k.N())
    requires ModPow(x, d, k.N()) == Com(a, b, y, z, k.N())
    ensures x % k.N() == Com(a, b, y * Inv(d, k.Phi()), z * Inv(d, k.Phi()), k.N())
  {
    hide Unit, ModMul, ModPow, Com, Inv;
    UnitPowInverse(k, x, d);
    ComPower(a, b, y, z, Inv(d, k.Phi()), k.N());
  }

  /** Only units open over two units. */
  lemma OpenedIsUnit(x: int, a: int, b: int, y: int, z: int, n: Modulus)
    requires Units(a, b, n) && x % n == Com(a, b, y, z, n)
    ensures Unit(x, n)
  {
    hide Unit, Com;
    ComIsUnit(a, b, y, z, n);
    UnitReduced(x, n);
  }

  /** Only a unit c_u expresses a unit over c_u and h, when its exponent is positive. */
  lemma BaseIsUnit(value: int, c_u: int, h: int, x: int, z: int, n: Modulus)
    requires Unit(value, n) && x > 0 && value == Com(c_u, h, x, z, n)
    ensures Unit(c_u, n)
  {
    hide Unit, ModMul, ModPow;
    FactorOfUnit(ModPow(c_u, x, n), ModPow(h, z, n), n);
    BaseOfUnitPower(c_u, x, n);
  }

  /** Two transcripts with the same commitments, both satisfying the equations.  The verifier
      does not test that the commitments are coprime to n, and nothing here asks for it. */
  ghost predicate Transcripts(n: Modulus, value: int, params: Params, p: Proof, c: int, p': Proof, c': int) {
    && Units(params.g, params.h, n)
    && UnitResidue(value, n)
    && p' == p.(s_alpha := p'.s_alpha, s_beta := p'.s_beta, s_delta := p'.s_delta,
                s_epsilon := p'.s_epsilon, s_zeta := p'.s_zeta, s_eta := p'.s_eta)
    && Equations(n, value, params, p, c) && Equations(n, value, params, p', c')
  }

  /** What the divided equations say, whatever the responses: each for the commitment it is
      about, when that one has an inverse. */
  lemma DividedEquations(n: Modulus, value: int, params: Params, p: Proof, c: int, p': Proof, c': int)
    requires Transcripts(n, value, params, p, c, p', c')
    ensures var Params(g, h) := params;
      && (Unit(p.c_r, n) ==>
            && ModPow(p.c_r, c - c', n) == Com(h, g, p'.s_epsilon - p.s_epsilon, p'.s_zeta - p.s_zeta, n)
            && ModPow(p.c_r, p.s_alpha - p'.s_alpha, n) == Com(g, h, p.s_delta - p'.s_delta, p.s_beta - p'.s_beta, n))
      && (Unit(p.c_e, n) ==>
            ModPow(p.c_e, c - c', n) == Com(g, h, p'.s_alpha - p.s_alpha, p'.s_eta - p.s_eta, n))
      && (Unit(p.c_u, n) ==>
            ModPow(value, c - c', n) == Com(p.c_u, h, p'.s_alpha - p.s_alpha, p.s_beta - p'.s_beta, n))
  {
    hide Unit, ModMul, ModPow, Com;
    var Params(g, h) := params;
    if Unit(p.c_r, n) {
      ResponseDifference(p.c_r, h, g, c, p.s_epsilon, p.s_zeta, c', p'.s_epsilon, p'.s_zeta, n);
      ResponseDifference(p.c_r, g, h, p.s_alpha, -p.s_delta, -p.s_beta, p'.s_alpha, -p'.s_delta, -p'.s_beta, n);
    }
    if Unit(p.c_e, n) {
      ResponseDifference(p.c_e, g, h, c, p.s_alpha, p.s_eta, c', p'.s_alpha, p'.s_eta, n);
    }
    if Unit(p.c_u, n) {
      ResponseDifference(value, p.c_u, h, c, p.s_alpha, -p.s_beta, c', p'.s_alpha, -p'.s_beta, n);
    }
  }

  /** With no divisibility at all: multiplied by the inverse of the challenge difference modulo
      phi, the response differences open c_r and c_e exactly when these are coprime to n, and
      the value over c_u exactly when c_u is, for a positive alpha difference. */
  lemma Openings(k: Key, value: int, params: Params, p: Proof, c: int, p': Proof, c': int)
    requires k.Valid() && Transcripts(k.N(), value, params, p, c, p', c')
    requires Unit(c - c', k.Phi())
    ensures var n, i := k.N(), Inv(c - c', k.Phi());
      var Params(g, h) := params;
      var expressed := Com(p.c_u, h, (p'.s_alpha - p.s_alpha) * i, (p.s_beta - p'.s_beta) * i, n);
      && (p.c_r % n == Com(h, g, (p'.s_epsilon - p.s_epsilon) * i, (p'.s_zeta - p.s_zeta) * i, n) <==> Unit(p.c_r, n))
      && (p.c_e % n == Com(g, h, (p'.s_alpha - p.s_alpha) * i, (p'.s_eta - p.s_eta) * i, n) <==> Unit(p.c_e, n))
      && (Unit(p.c_u, n) ==> value == expressed)
      && (p'.s_alpha > p.s_alpha ==> (value == expressed <==> Unit(p.c_u, n)))
  {
    hide Unit, ModMul, ModPow, Com, Equations, Inv;
    var Params(g, h) := params;
    var n, i := k.N(), Inv(c - c', k.Phi());
    var dAlpha, dEta := p'.s_alpha - p.s_alpha, p'.s_eta - p.s_eta;
    var dEpsilon, dZeta := p'.s_epsilon - p.s_epsilon, p'.s_zeta - p.s_zeta;
    DividedEquations(n, value, params, p, c, p', c');
    if Unit(p.c_r, n) {
      ComInverse(k, p.c_r, h, g, c - c', dEpsilon, dZeta);
    } else if p.c_r % n == Com(h, g, dEpsilon * i, dZeta * i, n) {
      OpenedIsUnit(p.c_r, h, g, dEpsilon * i, dZeta * i, n);
    }
    if Unit(p.c_e, n) {
      ComInverse(k, p.c_e, g, h, c - c', dAlpha, dEta);
    } else if p.c_e % n == Com(g, h, dAlpha * i, dEta * i, n) {
      OpenedIsUnit(p.c_e, g, h, dAlpha * i, dEta * i, n);
    }
    if Unit(p.c_u, n) {
      ComInverse(k, value, p.c_u, h, c - c', dAlpha, p.s_beta - p'.s_beta);
      SmallRemainder(value, n);
    } else if dAlpha > 0 && value == Com(p.c_u, h, dAlpha * i, (p.s_beta - p'.s_beta) * i, n) {
      InversePositive(c - c', k.Phi());
      MulAtLeast(dAlpha, i);
      BaseIsUnit(value, p.c_u, h, dAlpha * i, (p.s_beta - p'.s_beta) * i, n);
    }
  }

  lemma InversePositive(x: int, n: Modulus)
    requires Unit(x, n)
    ensures Inv(x, n) >= 1
  {
    hide Unit;
    UnitInverse(x, n);
    ZeroIsNoUnit(n);
  }

  /** Whatever the responses, a commitment of two transcripts opens exactly when it is coprime
      to n. */
  lemma OpensIffUnit(k: Key, value: int, params: Params, p: Proof, c: int, p': Proof, c': int)
    requires k.Valid() && Transcripts(k.N(), value, params, p, c, p', c')
    requires Unit(c - c', k.Phi())
    ensures (exists y, z :: p.c_r % k.N() == Com(params.h, params.g, y, z, k.N())) <==> Unit(p.c_r, k.N())
    ensures (exists y, z :: p.c_e % k.N() == Com(params.g, params.h, y, z, k.N())) <==> Unit(p.c_e, k.N())
  {
    hide Unit, ModMul, ModPow, Com, Equations, Inv;
    var Params(g, h) := params;
    Openings(k, value, params, p, c, p', c');
    if y, z :| p.c_r % k.N() == Com(h, g, y, z, k.N()) {
      OpenedIsUnit(p.c_r, h, g, y, z, k.N());
    }
    if y, z :| p.c_e % k.N() == Com(g, h, y, z, k.N()) {
      OpenedIsUnit(p.c_e, g, h, y, z, k.N());
    }
  }

  /** Every opening (r2, r3) of c_r satisfies one relation between the bases h and g, whose
      exponents are the beta and delta differences against r2 and r3 times the alpha one. */
  lemma OpeningRelation(n: Modulus, value: int, params: Params, p: Proof, c: int, p': Proof, c': int, r2: int, r3: int)
    requires Transcripts(n, value, params, p, c, p', c')
    requires p.c_r % n == Com(params.h, params.g, r2, r3, n)
    ensures var dAlpha, dBeta, dDelta := p'.s_alpha - p.s_alpha, p'.s_beta - p.s_beta, p'.s_delta - p.s_delta;
      Com(params.h, params.g, r2 * dAlpha - dBeta, r3 * dAlpha - dDelta, n) == 1
  {
    hide Unit, ModMul, ModPow, Com, Equations;
    OpenedIsUnit(p.c_r, params.h, params.g, r2, r3, n);
    DividedEquations(n, value, params, p, c, p', c');
    PowReduced(p.c_r, p.s_alpha - p'.s_alpha, n);
    BaseRelation(params.g, params.h, r2, r3, p'.s_alpha - p.s_alpha, p'.s_beta - p.s_beta, p'.s_delta - p.s_delta, n);
  }

  /** The root: when the challenge difference divides the alpha difference with quotient x, and
      the beta difference is r2 times the alpha difference, c_u * h^(-r2) is an x-th root of
      the accumulator value exactly when c_u is coprime to n. */
  lemma ExtractedRoot(k: Key, value: int, params: Params, p: Proof, c: int, p': Proof, c': int, x: int, r2: int)
    requires k.Valid() && Transcripts(k.N(), value, params, p, c, p', c')
    requires Unit(c - c', k.Phi())
    requires p'.s_alpha - p.s_alpha == x * (c - c')
    requires p'.s_beta - p.s_beta == r2 * (p'.s_alpha - p.s_alpha)
    ensures var root := ModMul(p.c_u, ModPow(params.h, -r2, k.N()), k.N());
      && (Unit(p.c_u, k.N()) ==> ModPow(root, x, k.N()) == value)
      && (x > 0 ==> (ModPow(root, x, k.N()) == value <==> Unit(p.c_u, k.N())))
  {
    hide Unit, ModMul, ModPow, Com, Equations;
    var n, d := k.N(), c - c';
    var root := ModMul(p.c_u, ModPow(params.h, -r2, n), n);
    if Unit(p.c_u, n) {
      DividedEquations(n, value, params, p, c, p', c');
      assert p.s_beta - p'.s_beta == (-r2 * x) * d by {
        Associate(-r2, x, d);
      }
      ComRoot(k, value, p.c_u, params.h, d, x, -r2 * x);
      SmallRemainder(value, n);
      UnblindedRoot(p.c_u, params.h, -r2, x, n);
    } else if x > 0 && ModPow(root, x, n) == value {
      BaseOfUnitPower(root, x, n);
      FactorOfUnit(p.c_u, ModPow(params.h, -r2, n), n);
    }
  }

  /** Extraction, for two accepting transcripts whose challenge difference d is invertible
      modulo phi.  Each conclusion has its own divisibility only, and holds exactly when the one
      commitment it is about is coprime to n. */
  lemma Extraction(k: Key, value: int, params: Params, p: Proof, c: int, p': Proof, c': int,
                   x: int, r1: int, r2: int, r3: int)
    requires k.Valid() && Transcripts(k.N(), value, params, p, c, p', c')
    requires Unit(c - c', k.Phi())
    ensures var n, d := k.N(), c - c';
      var dAlpha, dBeta, dDelta := p'.s_alpha - p.s_alpha, p'.s_beta - p.s_beta, p'.s_delta - p.s_delta;
      var root := ModMul(p.c_u, ModPow(params.h, -r2, n), n);
      && (p'.s_epsilon - p.s_epsilon == r2 * d && p'.s_zeta - p.s_zeta == r3 * d ==>
            && (p.c_r % n == Com(params.h, params.g, r2, r3, n) <==> Unit(p.c_r, n))
            && (Unit(p.c_r, n) ==> Com(params.h, params.g, r2 * dAlpha - dBeta, r3 * dAlpha - dDelta, n) == 1))
      && (dAlpha == x * d && p'.s_eta - p.s_eta == r1 * d ==>
            (p.c_e % n == Com(params.g, params.h, x, r1, n) <==> Unit(p.c_e, n)))
      && (dAlpha == x * d && dBeta == r2 * dAlpha ==>
            && (Unit(p.c_u, n) ==> ModPow(root, x, n) == value)
            && (x > 0 ==> (ModPow(root, x, n) == value <==> Unit(p.c_u, n))))
  {
    hide Unit, ModMul, ModPow, Com, Equations;
    var n, d := k.N(), c - c';
    var Params(g, h) := params;
    var dAlpha := p'.s_alpha - p.s_alpha;
    DividedEquations(n, value, params, p, c, p', c');
    if p'.s_epsilon - p.s_epsilon == r2 * d && p'.s_zeta - p.s_zeta == r3 * d {
      if Unit(p.c_r, n) {
        ComRoot(k, p.c_r, h, g, d, r2, r3);
        OpeningRelation(n, value, params, p, c, p', c', r2, r3);
      } else if p.c_r % n == Com(h, g, r2, r3, n) {
        OpenedIsUnit(p.c_r, h, g, r2, r3, n);
      }
    }
    if dAlpha == x * d && p'.s_eta - p.s_eta == r1 * d {
      if Unit(p.c_e, n) {
        ComRoot(k, p.c_e, g, h, d, x, r1);
      } else if p.c_e % n == Com(g, h, x, r1, n) {
        OpenedIsUnit(p.c_e, g, h, x, r1, n);
      }
    }
    if dAlpha == x * d && p'.s_beta - p.s_beta == r2 * dAlpha {
      ExtractedRoot(k, value, params, p, c, p', c', x, r2);
    }
  }

  /** c_u^x * h^(r*x) is the x-th power of c_u * h^r. */
  lemma UnblindedRoot(c_u: int, h: int, r: int, x: int, n: Modulus)
    requires Units(c_u, h, n)
    ensures ModPow(ModMul(c_u, ModPow(h, r, n), n), x, n) == Com(c_u, h, x, r * x, n)
  {
    hide Unit, ModMul, ModPow;
    PowUnit(h, r, n);
    PowProduct(c_u, ModPow(h, r, n), x, n);
    PowMul(h, r, x, n);
  }

  lemma BaseRelation(g: int, h: int, r2: int, r3: int, dAlpha: int, dBeta: int, dDelta: int, n: Modulus)
    requires Units(g, h, n)
    requires ModPow(Com(h, g, r2, r3, n), -dAlpha, n) == Com(g, h, -dDelta, -dBeta, n)
    ensures Com(h, g, r2 * dAlpha - dBeta, r3 * dAlpha - dDelta, n) == 1
  {
    hide Unit, ModMul, ModPow, Com;
    ComPower(h, g, r2, r3, -dAlpha, n);
    ComCommutes(g, h, -dDelta, -dBeta, n);
    NegatedProduct(r2, dAlpha);
    NegatedProduct(r3, dAlpha);
    ComProduct(h, g, r2 * dAlpha, r3 * dAlpha, -dBeta, -dDelta, n);
    ComProduct(h, g, r2 * dAlpha, r3 * dAlpha, r2 * -dAlpha, r3 * -dAlpha, n);
    ComZero(h, g, n);
  }

  lemma ComZero(a: int, b: int, n: Modulus)
    ensures Com(a, b, 0, 0, n) == 1
  {}

  // ----- commitments that are not coprime to n -----

  /** All commitments and masks 0, all responses but s_alpha 0: 0 is not coprime to n. */
  function ZeroProof(s_alpha: int): Proof {
    Proof(0, 0, 0, 0, 0, 0, 0, s_alpha, 0, 0, 0, 0, 0)
  }

  lemma ZeroPower(e: nat, n: Modulus)
    ensures ModPow(0, e, n) == if e == 0 then 1 else 0
  {
    hide NatPow, ModPow;
    PowZero(0, n);
    if e > 0 {
      PowStep(0, e - 1, n);
    }
  }

  lemma ZeroFactor(a: int, b: int, n: Modulus)
    ensures ModMul(ModMul(0, a, n), b, n) == 0 == ModMul(ModMul(a, 0, n), b, n)
  {}

  /** The equations hold for it, whatever the modulus, the value and the bases, exactly when
      the challenge and s_alpha are positive. */
  lemma ZeroProofEquations(n: Modulus, value: int, params: Params, s_alpha: nat, c: nat)
    ensures Equations(n, value, params, ZeroProof(s_alpha), c) <==> s_alpha > 0 && c > 0
  {
    hide ModMul, ModPow;
    var Params(g, h) := params;
    ZeroPower(s_alpha, n);
    ZeroPower(c, n);
    PowZero(g, n);
    PowZero(h, n);
    MulOne(1, n);
    if s_alpha > 0 && c > 0 {
      ZeroFactor(ModPow(h, 0, n), ModPow(g, 0, n), n);
      ZeroFactor(ModPow(g, s_alpha, n), ModPow(h, 0, n), n);
      ZeroFactor(ModPow(value, c, n), ModPow(h, 0, n), n);
      ZeroFactor(ModPow(g, 0, n), ModPow(h, 0, n), n);
    }
  }

  /** The verifier on the zero proof: it needs no witness, and even with the intended bound it
      is accepted unless its challenge is 0. */
  method VerifyZeroProof(o: Oracle, n: Modulus, value: int, params: Params, extra: seq<Byte>) returns (ok: bool)
    ensures ok <==> ProofChallenge(o, params, ZeroProof(1), extra) != 0
    ensures ok <==> IntendedVerifier(n, value, params, ZeroProof(1), ProofChallenge(o, params, ZeroProof(1), extra))
  {
    hide Pow2, ModMul, ModPow, Challenge, Equations;
    ZeroProofEquations(n, value, params, 1, ProofChallenge(o, params, ZeroProof(1), extra));
    ok := VerifyMemProof(o, n, value, params, ZeroProof(1), extra);
    DoubleAlphaRange();
  }

  /** Two transcripts of it meet every hypothesis of `Extraction`, for every quotient x, and
      none of the conclusions: no commitment opens, and there is no root. */
  lemma ZeroTranscripts(n: Modulus, value: int, params: Params, c: nat, c': nat, x: nat)
    requires Units(params.g, params.h, n) && UnitResidue(value, n) && c > c' > 0 && x > 0
    ensures x * (c - c') >= 0
    ensures var p, p' := ZeroProof(1), ZeroProof(1 + x * (c - c'));
      && Transcripts(n, value, params, p, c, p', c')
      && !(exists y, z :: p.c_r % n == Com(params.h, params.g, y, z, n))
      && !(exists y, z :: p.c_e % n == Com(params.g, params.h, y, z, n))
      && ModPow(ModMul(p.c_u, ModPow(params.h, 0, n), n), x, n) != value
  {
    hide Unit, ModMul, ModPow, Com, Equations;
    var Params(g, h) := params;
    MulAtLeast(c - c', x);
    MulCommutative(x, c - c');
    ZeroProofEquations(n, value, params, 1, c);
    ZeroProofEquations(n, value, params, 1 + x * (c - c'), c');
    ZeroIsNoUnit(n);
    if y, z :| 0 % n == Com(h, g, y, z, n) {
      OpenedIsUnit(0, h, g, y, z, n);
    }
    if y, z :| 0 % n == Com(g, h, y, z, n) {
      OpenedIsUnit(0, g, h, y, z, n);
    }
    if ModPow(ModMul(0, ModPow(h, 0, n), n), x, n) == value {
      BaseOfUnitPower(ModMul(0, ModPow(h, 0, n), n), x, n);
      FactorOfUnit(0, ModPow(h, 0, n), n);
    }
  }

  // ----- response sizes -----

  /** The ranges `prove_mem` samples from; upper ends are exclusive. */
  ghost predicate InRange(n: Modulus, r: Sample) {
    var quarter := n / 4;
    var a: int, b: int, d: int := Pow2(H2P_SIZE + CHALLENGE_SIZE + NONCE_SIZE), quarter * Pow2(CHALLENGE_SIZE + NONCE_SIZE),
                   quarter * Pow2(H2P_SIZE + CHALLENGE_SIZE + NONCE_SIZE);
    && 0 <= r.r_1 < quarter && 0 <= r.r_2 < quarter && 0 <= r.r_3 < quarter
    && -a <= r.alpha < a
    && -b <= r.epsilon < b && -b <= r.eta < b && -b <= r.zeta < b
    && -d <= r.beta < d && -d <= r.delta < d
  }

  /** The ranges reach to their ends: the least sample, the greatest, and none with a mask
      beyond. */
  lemma RangeEnds(n: Modulus, r: Sample) returns (least: Sample, greatest: Sample)
    requires n >= 4
    ensures InRange(n, least) && InRange(n, greatest)
    ensures least.r_1 == 0 && greatest.r_1 == n / 4 - 1
    ensures least.alpha == 0 - Pow2(592) && greatest.alpha == Pow2(592) - 1
    ensures least.epsilon == 0 - n / 4 * Pow2(336) && greatest.epsilon == n / 4 * Pow2(336) - 1
    ensures least.beta == 0 - n / 4 * Pow2(592) && greatest.beta == n / 4 * Pow2(592) - 1
    ensures InRange(n, r) <==>
      && least.r_1 <= r.r_1 <= greatest.r_1 && least.r_1 <= r.r_2 <= greatest.r_1 && least.r_1 <= r.r_3 <= greatest.r_1
      && least.alpha <= r.alpha <= greatest.alpha
      && least.epsilon <= r.epsilon <= greatest.epsilon && least.epsilon <= r.eta <= greatest.epsilon
      && least.epsilon <= r.zeta <= greatest.epsilon
      && least.beta <= r.beta <= greatest.beta && least.beta <= r.delta <= greatest.beta
  {
    hide Pow2;
    var quarter := n / 4;
    var a: int, b: int, d: int := Pow2(592), quarter * Pow2(336), quarter * Pow2(592);
    ProductBelow(0, 0, quarter, Pow2(336));
    ProductBelow(0, 0, quarter, Pow2(592));
    least := Sample(0, 0, 0, -a, -d, -d, -b, -b, -b);
    greatest := Sample(quarter - 1, quarter - 1, quarter - 1, a - 1, d - 1, d - 1, b - 1, b - 1, b - 1);
  }

  lemma ProductBelow(a: nat, b: nat, a': nat, b': nat)
    requires a < a' && b < b'
    ensures 0 <= a * b < a' * b'
  {}

  /** c * r < quarter * 2^336 for a challenge below 2^256 and r below the quarter. */
  lemma SmallProduct(c: nat, r: nat, quarter: nat)
    requires c < Pow2(CHALLENGE_SIZE) && r < quarter
    ensures 0 <= c * r < quarter * Pow2(CHALLENGE_SIZE + NONCE_SIZE)
  {
    hide Pow2;
    Pow2Increases(CHALLENGE_SIZE, CHALLENGE_SIZE + NONCE_SIZE);
    ProductBelow(r, c, quarter, Pow2(CHALLENGE_SIZE + NONCE_SIZE));
    MulCommutative(c, r);
  }

  lemma LargeProduct(c: nat, r: nat, item: nat, quarter: nat)
    requires c < Pow2(CHALLENGE_SIZE) && item < Pow2(H2P_SIZE) && r < quarter
    ensures 0 <= c * r * item < quarter * Pow2(H2P_SIZE + CHALLENGE_SIZE + NONCE_SIZE)
    ensures 0 <= c * item < Pow2(H2P_SIZE + CHALLENGE_SIZE + NONCE_SIZE)
  {
    hide Pow2;
    ProductBelow(c, item, Pow2(CHALLENGE_SIZE), Pow2(H2P_SIZE));
    Pow2Adds(CHALLENGE_SIZE, H2P_SIZE);
    Pow2Increases(CHALLENGE_SIZE + H2P_SIZE, H2P_SIZE + CHALLENGE_SIZE + NONCE_SIZE);
    ProductBelow(r, c * item, quarter, Pow2(H2P_SIZE + CHALLENGE_SIZE + NONCE_SIZE));
    ReorderProduct(c, r, item);
  }

  /** Honest responses: |s_alpha| stays under the limit the verifier builds, and every other
      response within twice the range of its mask. */
  lemma HonestResponseBounds(o: Oracle, n: Modulus, params: Params, item: nat, u: int, r: Sample, extra: seq<Byte>)
    requires item < Pow2(H2P_SIZE) && InRange(n, r)
    ensures var p := ProveMem(o, n, params, item, u, r, extra);
      var quarter := n / 4;
      && Within(p.s_alpha, ALPHA_BOUND)
      && Within(p.s_epsilon, 2 * (quarter * Pow2(CHALLENGE_SIZE + NONCE_SIZE)))
      && Within(p.s_zeta, 2 * (quarter * Pow2(CHALLENGE_SIZE + NONCE_SIZE)))
      && Within(p.s_eta, 2 * (quarter * Pow2(CHALLENGE_SIZE + NONCE_SIZE)))
      && Within(p.s_beta, 2 * (quarter * Pow2(H2P_SIZE + CHALLENGE_SIZE + NONCE_SIZE)))
      && Within(p.s_delta, 2 * (quarter * Pow2(H2P_SIZE + CHALLENGE_SIZE + NONCE_SIZE)))
  {
    hide Pow2, ModMul, ModPow, Challenge;
    var p := ProveMem(o, n, params, item, u, r, extra);
    var c := ProofChallenge(o, params, p, extra);
    ChallengeBound(o, params, [p.c_e, p.c_u, p.c_r, p.t_1, p.t_2, p.t_3, p.t_4], extra);
    SmallProduct(c, r.r_1, n / 4);
    SmallProduct(c, r.r_2, n / 4);
    SmallProduct(c, r.r_3, n / 4);
    LargeProduct(c, r.r_2, item, n / 4);
    LargeProduct(c, r.r_3, item, n / 4);
    DoubleAlphaRange();
  }

  lemma DoubleAlphaRange()
    ensures ALPHA_BOUND == 2 * Pow2(H2P_SIZE + CHALLENGE_SIZE + NONCE_SIZE)
  {}

  /** The verifier accepts proofs outside the intended bound: for every valid witness, every
      proof made as the prover makes it but with an alpha mask far outside its range satisfies
      the equations while |s_alpha| is not below the bound. */
  lemma AcceptedBeyondBound(o: Oracle, n: Modulus, value: int, params: Params, item: nat, u: int, r: Sample, extra: seq<Byte>)
    requires Residue(value, n) && Unit(u, n) && Units(params.g, params.h, n)
    requires Verifies(n, value, item, u) && item < Pow2(H2P_SIZE)
    requires r.alpha >= 2 * ALPHA_BOUND || r.alpha <= 0 - ALPHA_BOUND
    ensures var p := ProveMem(o, n, params, item, u, r, extra);
      var c := ProofChallenge(o, params, p, extra);
      && Accepts(o, n, value, params, p, extra)
      && !Within(p.s_alpha, ALPHA_BOUND) && !IntendedVerifier(n, value, params, p, c)
  {
    hide Pow2, Unit, ModMul, ModPow, Challenge, Equations;
    Completeness(o, n, value, params, item, u, r, extra);
    var p := ProveMem(o, n, params, item, u, r, extra);
    var c := ProofChallenge(o, params, p, extra);
    ChallengeBound(o, params, [p.c_e, p.c_u, p.c_r, p.t_1, p.t_2, p.t_3, p.t_4], extra);
    LargeProduct(c, 0, item, 1);
    DoubleAlphaRange();
  }
}
