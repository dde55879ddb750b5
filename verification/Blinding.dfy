/** How the outputs of `prove_mem` for two samples are related: what the blindings hide, and
    what two answers to different challenges give away. */
module Blinding {
  import opened Arithmetic
  import opened Bytes
  import opened Modular
  import opened Updates
  import opened MembershipProof

  // ----- equal commitments -----

  /** A unit times d is that unit only for d = 1. */
  lemma OneFactor(x: int, d: int, n: Modulus)
    requires Unit(x, n) && Residue(d, n)
    ensures ModMul(x, d, n) == x % n <==> d == 1
  {
    hide Unit, ModMul;
    MulOne(x, n);
    if ModMul(x, d, n) == x % n {
      Cancel(x, d, 1, n);
    }
  }

  lemma SameCom(a: int, b: int, x: int, y: int, x': int, y': int, n: Modulus)
    requires Units(a, b, n)
    ensures Com(a, b, x, y, n) == Com(a, b, x', y', n) <==> Com(a, b, x - x', y - y', n) == 1
  {
    hide Unit, Com, ModMul;
    var base := Com(a, b, x', y', n);
    ComIsUnit(a, b, x', y', n);
    ComProduct(a, b, x', y', x - x', y - y', n);
    OneFactor(base, Com(a, b, x - x', y - y', n), n);
    SmallRemainder(base, n);
  }

  /** u * h^y = u' * h^y' exactly when u * h^(y - y') = u'. */
  lemma SameBlinded(u: int, u': int, h: int, y: int, y': int, n: Modulus)
    requires Unit(h, n)
    ensures ModMul(u, ModPow(h, y, n), n) == ModMul(u', ModPow(h, y', n), n)
       <==> ModMul(u, ModPow(h, y - y', n), n) == u' % n
  {
    hide Unit, ModMul, ModPow;
    var base, d := ModPow(h, y', n), ModPow(h, y - y', n);
    PowUnit(h, y', n);
    PowAdd(h, y - y', y', n);
    MulAssociates(u, d, base, n);
    MulReduced(u', base, n);
    MulCommutes(ModMul(u, d, n), base, n);
    MulCommutes(u' % n, base, n);
    if ModMul(ModMul(u, d, n), base, n) == ModMul(u' % n, base, n) {
      Cancel(base, ModMul(u, d, n), u' % n, n);
    }
  }

  /** x^e * a^y * b^z, the form of the fourth mask. */
  function Three(x: int, a: int, b: int, e: int, y: int, z: int, n: Modulus): int {
    ModMul(ModMul(ModPow(x, e, n), ModPow(a, y, n), n), ModPow(b, z, n), n)
  }

  lemma SameThree(x: int, a: int, b: int, e: int, y: int, z: int, e': int, y': int, z': int, n: Modulus)
    requires Unit(x, n) && Units(a, b, n)
    ensures Three(x, a, b, e, y, z, n) == Three(x, a, b, e', y', z', n)
       <==> Three(x, a, b, e - e', y - y', z - z', n) == 1
  {
    hide Unit, Com, ModMul, ModPow;
    ThreeFactors(x, a, b, e, y, z, n);
    ThreeFactors(x, a, b, e', y', z', n);
    ThreeFactors(x, a, b, e - e', y - y', z - z', n);
    var base, rest := ModPow(x, e', n), Com(a, b, y', z', n);
    var d, d' := ModPow(x, e - e', n), Com(a, b, y - y', z - z', n);
    PowUnit(x, e', n);
    ComIsUnit(a, b, y', z', n);
    UnitProduct(base, rest, n);
    PowAdd(x, e', e - e', n);
    ComProduct(a, b, y', z', y - y', z - z', n);
    MulSwap(base, d, rest, d', n);
    OneFactor(ModMul(base, rest, n), ModMul(d, d', n), n);
    SmallRemainder(ModMul(base, rest, n), n);
  }

  /** When two presentations, of any items with any witnesses, have a commitment or a mask in
      common: exactly when the differences of what went into it cancel.  In particular c_u is
      the same for another witness exactly when the blindings make up for it, so it does not
      tell which witness was blinded. */
  lemma SameCommitments(n: Modulus, params: Params, o: Oracle, item: nat, u: int, r: Sample, extra: seq<Byte>,
                        o': Oracle, item': nat, u': int, r': Sample, extra': seq<Byte>)
    requires Units(params.g, params.h, n) && Unit(u, n)
    ensures var Params(g, h) := params;
      var p, p' := ProveMem(o, n, params, item, u, r, extra), ProveMem(o', n, params, item', u', r', extra');
      && (p.c_u == p'.c_u <==> ModMul(u, ModPow(h, r.r_2 - r'.r_2, n), n) == u' % n)
      && (u == u' ==> (p.c_u == p'.c_u <==> ModPow(h, r.r_2 - r'.r_2, n) == 1))
      && (p.c_e == p'.c_e <==> Com(g, h, item - item', r.r_1 - r'.r_1, n) == 1)
      && (p.c_r == p'.c_r <==> Com(h, g, r.r_2 - r'.r_2, r.r_3 - r'.r_3, n) == 1)
      && (p.t_1 == p'.t_1 <==> Com(h, g, r.epsilon - r'.epsilon, r.zeta - r'.zeta, n) == 1)
      && (p.t_2 == p'.t_2 <==> Com(g, h, r.alpha - r'.alpha, r.eta - r'.eta, n) == 1)
  {
    hide Unit, ModMul, ModPow, Challenge;
    var Params(g, h) := params;
    SameBlinded(u, u', h, r.r_2, r'.r_2, n);
    OneFactor(u, ModPow(h, r.r_2 - r'.r_2, n), n);
    SameCom(g, h, item, r.r_1, item', r'.r_1, n);
    SameCom(h, g, r.r_2, r.r_3, r'.r_2, r'.r_3, n);
    SameCom(h, g, r.epsilon, r.zeta, r'.epsilon, r'.zeta, n);
    SameCom(g, h, r.alpha, r.eta, r'.alpha, r'.eta, n);
  }

  /** The two masks that are powers of commitments, for presentations that share these. */
  lemma SameMasks(n: Modulus, params: Params, o: Oracle, item: nat, u: int, r: Sample, extra: seq<Byte>,
                  o': Oracle, item': nat, u': int, r': Sample, extra': seq<Byte>)
    requires Units(params.g, params.h, n) && Unit(u, n)
    ensures var Params(g, h) := params;
      var p, p' := ProveMem(o, n, params, item, u, r, extra), ProveMem(o', n, params, item', u', r', extra');
      && (p.c_u == p'.c_u ==>
            (p.t_3 == p'.t_3 <==> Com(p.c_u, h, r.alpha - r'.alpha, r'.beta - r.beta, n) == 1))
      && (p.c_r == p'.c_r ==>
            (p.t_4 == p'.t_4 <==> Three(p.c_r, g, h, r.alpha - r'.alpha, r'.delta - r.delta, r'.beta - r.beta, n) == 1))
  {
    hide Unit, ModMul, ModPow, Challenge;
    var Params(g, h) := params;
    var p := ProveMem(o, n, params, item, u, r, extra);
    PowUnit(h, r.r_2, n);
    UnitProduct(u, ModPow(h, r.r_2, n), n);
    ComIsUnit(h, g, r.r_2, r.r_3, n);
    SameCom(p.c_u, h, r.alpha, -r.beta, r'.alpha, -r'.beta, n);
    SameThree(p.c_r, g, h, r.alpha, -r.delta, -r.beta, r'.alpha, -r'.delta, -r'.beta, n);
  }

  // ----- the prover meets the extractor -----

  /** Two honest answers with one sample to two challenges: they are transcripts as the
      extraction asks for, their differences divide, and the quotients are the prover's item
      and blindings; unblinding c_u gives the witness itself. */
  lemma HonestTranscripts(n: Modulus, value: int, params: Params, item: nat, u: int, r: Sample,
                          o: Oracle, extra: seq<Byte>, o': Oracle, extra': seq<Byte>)
    requires UnitResidue(value, n) && Unit(u, n) && Units(params.g, params.h, n) && Verifies(n, value, item, u)
    ensures var p, p' := ProveMem(o, n, params, item, u, r, extra), ProveMem(o', n, params, item, u, r, extra');
      var c, c' := ProofChallenge(o, params, p, extra), ProofChallenge(o', params, p', extra');
      && Transcripts(n, value, params, p, c, p', c')
      && p'.s_alpha - p.s_alpha == item * (c - c')
      && p'.s_beta - p.s_beta == r.r_2 * (p'.s_alpha - p.s_alpha)
      && p'.s_delta - p.s_delta == r.r_3 * (p'.s_alpha - p.s_alpha)
      && p'.s_epsilon - p.s_epsilon == r.r_2 * (c - c')
      && p'.s_zeta - p.s_zeta == r.r_3 * (c - c')
      && p'.s_eta - p.s_eta == r.r_1 * (c - c')
      && ModMul(p.c_u, ModPow(params.h, -r.r_2, n), n) == u % n
  {
    hide Unit, ModMul, ModPow, Challenge, Equations;
    var p, p' := ProveMem(o, n, params, item, u, r, extra), ProveMem(o', n, params, item, u, r, extra');
    var c, c' := ProofChallenge(o, params, p, extra), ProofChallenge(o', params, p', extra');
    Completeness(o, n, value, params, item, u, r, extra);
    Completeness(o', n, value, params, item, u, r, extra');
    ResponseStep(r.alpha, c, c', item);
    ResponseStep(r.epsilon, c, c', r.r_2);
    ResponseStep(r.zeta, c, c', r.r_3);
    ResponseStep(r.eta, c, c', r.r_1);
    ResponseTimesItem(r.beta, c, c', r.r_2, item);
    ResponseTimesItem(r.delta, c, c', r.r_3, item);
    Unblind(u, params.h, r.r_2, n);
  }

  lemma ResponseStep(mask: int, c: int, c': int, secret: int)
    ensures (mask - c' * secret) - (mask - c * secret) == secret * (c - c')
  {}

  lemma ResponseTimesItem(mask: int, c: int, c': int, r: int, item: int)
    ensures (mask - c' * r * item) - (mask - c * r * item) == r * (item * (c - c'))
  {
    ReorderProduct(c, r, item);
    ReorderProduct(c', r, item);
    Distribute(r, c * item, -(c' * item));
    Distribute(item, c, -c');
    NegatedProduct(c', item);
  }

  lemma Unblind(u: int, h: int, r: int, n: Modulus)
    requires Unit(h, n)
    ensures ModMul(ModMul(u, ModPow(h, r, n), n), ModPow(h, -r, n), n) == u % n
  {
    hide Unit, ModMul, ModPow;
    MulAssociates(u, ModPow(h, r, n), ModPow(h, -r, n), n);
    PowNegate(h, r, n);
    MulOne(u, n);
  }
}
