/** What `hash_to_k_bits` makes the challenge depend on. */
module ChallengeBinding {
  import opened Bytes
  import opened Modular
  import opened Rsa
  import opened Roots
  import opened Sequences
  import opened MembershipProof

  /** The challenge is the first 32 output bytes for what is absorbed, read big-endian. */
  lemma ChallengeBytes(o: Oracle, params: Params, nums: seq<int>, extra: seq<Byte>)
    ensures var c := BigEndian(Challenge(o, params, nums, extra), 32);
      forall i | 0 <= i < 32 :: c[i] == o.xof(Absorbed(o.toBytes, params, nums, extra), i)
  {
    hide FromBytes, BigEndian, Absorbed;
    var input := Absorbed(o.toBytes, params, nums, extra);
    BytesRoundTrip(seq(CHALLENGE_SIZE / 8, i requires i >= 0 => o.xof(input, i)));
  }

  /** One challenge under every extendable-output function. */
  ghost predicate SameChallenges(toBytes: int -> seq<Byte>, params: Params, nums: seq<int>, extra: seq<Byte>,
                                 params': Params, nums': seq<int>, extra': seq<Byte>) {
    forall xof: (seq<Byte>, nat) -> Byte ::
      Challenge(Oracle(toBytes, xof), params, nums, extra) == Challenge(Oracle(toBytes, xof), params', nums', extra')
  }

  lemma SameChallengesIffAbsorbed(toBytes: int -> seq<Byte>, params: Params, nums: seq<int>, extra: seq<Byte>,
                                  params': Params, nums': seq<int>, extra': seq<Byte>)
    ensures SameChallenges(toBytes, params, nums, extra, params', nums', extra')
       <==> Absorbed(toBytes, params, nums, extra) == Absorbed(toBytes, params', nums', extra')
  {
    hide Absorbed, Challenge;
    if SameChallenges(toBytes, params, nums, extra, params', nums', extra') {
      EqualAbsorbed(toBytes, params, nums, extra, params', nums', extra');
    }
    if Absorbed(toBytes, params, nums, extra) == Absorbed(toBytes, params', nums', extra') {
      forall xof: (seq<Byte>, nat) -> Byte
        ensures Challenge(Oracle(toBytes, xof), params, nums, extra)
             == Challenge(Oracle(toBytes, xof), params', nums', extra')
      {
        EqualInputs(Oracle(toBytes, xof), params, nums, extra, params', nums', extra');
      }
    }
  }

  /** The function that marks one input tells it from every other. */
  lemma EqualAbsorbed(toBytes: int -> seq<Byte>, params: Params, nums: seq<int>, extra: seq<Byte>,
                      params': Params, nums': seq<int>, extra': seq<Byte>)
    requires SameChallenges(toBytes, params, nums, extra, params', nums', extra')
    ensures Absorbed(toBytes, params, nums, extra) == Absorbed(toBytes, params', nums', extra')
  {
    hide Absorbed, Challenge, BigEndian;
    var input := Absorbed(toBytes, params, nums, extra);
    var xof: (seq<Byte>, nat) -> Byte := (s: seq<Byte>, i: nat) => if s == input then 1 else 0;
    var o := Oracle(toBytes, xof);
    ChallengeBytes(o, params, nums, extra);
    ChallengeBytes(o, params', nums', extra');
    assert Challenge(o, params, nums, extra) == Challenge(o, params', nums', extra');
    assert BigEndian(Challenge(o, params, nums, extra), 32)[0] == xof(input, 0);
    assert BigEndian(Challenge(o, params', nums', extra'), 32)[0] == xof(Absorbed(toBytes, params', nums', extra'), 0);
  }

  lemma EqualInputs(o: Oracle, params: Params, nums: seq<int>, extra: seq<Byte>,
                    params': Params, nums': seq<int>, extra': seq<Byte>)
    requires Absorbed(o.toBytes, params, nums, extra) == Absorbed(o.toBytes, params', nums', extra')
    ensures Challenge(o, params, nums, extra) == Challenge(o, params', nums', extra')
  {
    hide Absorbed, FromBytes;
  }

  /** The nonce is bound whatever the encoding: other extra bytes, other challenges. */
  lemma ExtraIsBound(toBytes: int -> seq<Byte>, params: Params, nums: seq<int>, extra: seq<Byte>, extra': seq<Byte>)
    ensures SameChallenges(toBytes, params, nums, extra, params, nums, extra') <==> extra == extra'
  {
    hide SameChallenges, Encoded;
    SameChallengesIffAbsorbed(toBytes, params, nums, extra, params, nums, extra');
    var e := Encoded(toBytes, [params.g, params.h] + nums);
    assert extra == (e + extra)[|e|..] && extra' == (e + extra')[|e|..];
  }

  /** On the numbers below m the encoding is injective and of one length. */
  ghost predicate FixedCode(toBytes: int -> seq<Byte>, len: nat, m: Modulus) {
    && (forall x | 0 <= x < m :: |toBytes(x)| == len)
    && (forall x, y | 0 <= x < m && 0 <= y < m && toBytes(x) == toBytes(y) :: x == y)
  }

  /** Big-endian bytes of one length are such an encoding. */
  lemma BigEndianIsFixedCode(len: nat, m: Modulus)
    requires m <= Pow2(8 * len)
    ensures FixedCode(x => if x >= 0 then BigEndian(x, len) else [], len, m)
  {
    hide Pow2, BigEndian, FromBytes;
    forall x: nat | x < m ensures FromBytes(BigEndian(x, len)) == x {
      BigEndianRoundTrip(x, len);
    }
  }

  ghost predicate AllBelow(nums: seq<int>, m: Modulus) {
    forall i | 0 <= i < |nums| :: 0 <= nums[i] < m
  }

  lemma {:induction false} EncodedIsInjective(toBytes: int -> seq<Byte>, len: nat, m: Modulus, a: seq<int>, b: seq<int>)
    requires FixedCode(toBytes, len, m) && AllBelow(a, m) && AllBelow(b, m) && |a| == |b|
    ensures |Encoded(toBytes, a)| == |Encoded(toBytes, b)|
    ensures Encoded(toBytes, a) == Encoded(toBytes, b) <==> a == b
  {
    if a == [] {
    } else {
      var i := |a| - 1;
      EncodedIsInjective(toBytes, len, m, a[..i], b[..i]);
      ConcatInjective(Encoded(toBytes, a[..i]), Encoded(toBytes, b[..i]), toBytes(a[i]), toBytes(b[i]));
      assert a == a[..i] + [a[i]] && b == b[..i] + [b[i]];
    }
  }

  /** With an encoding of one length the challenge binds everything: equal challenges under
      every extendable-output function mean equal parameters, numbers and extra bytes. */
  lemma EverythingIsBound(toBytes: int -> seq<Byte>, len: nat, m: Modulus, params: Params, nums: seq<int>, extra: seq<Byte>,
                          params': Params, nums': seq<int>, extra': seq<Byte>)
    requires FixedCode(toBytes, len, m) && |nums| == |nums'|
    requires AllBelow([params.g, params.h] + nums, m) && AllBelow([params'.g, params'.h] + nums', m)
    ensures SameChallenges(toBytes, params, nums, extra, params', nums', extra')
       <==> params == params' && nums == nums' && extra == extra'
  {
    hide SameChallenges, Encoded, FixedCode;
    var a, b := [params.g, params.h] + nums, [params'.g, params'.h] + nums';
    SameChallengesIffAbsorbed(toBytes, params, nums, extra, params', nums', extra');
    EncodedIsInjective(toBytes, len, m, a, b);
    ConcatInjective(Encoded(toBytes, a), Encoded(toBytes, b), extra, extra');
    ConcatInjective([params.g, params.h], [params'.g, params'.h], nums, nums');
    assert [params.g, params.h] == [params'.g, params'.h] <==> params == params' by {
      assert [params.g, params.h][0] == params.g && [params.g, params.h][1] == params.h;
      assert [params'.g, params'.h][0] == params'.g && [params'.g, params'.h][1] == params'.h;
    }
  }

  /** One length is needed, since nothing separates the numbers: in unary, an injective
      encoding, two numbers can trade places. */
  lemma LengthsMatter(params: Params, extra: seq<Byte>) returns (toBytes: int -> seq<Byte>)
    ensures forall x, y :: toBytes(x) == toBytes(y) ==> x == y
    ensures SameChallenges(toBytes, params, [1, 2], extra, params, [2, 1], extra)
  {
    toBytes := Unary;
    forall x, y | toBytes(x) == toBytes(y) ensures x == y {
      UnaryIsInjective(x, y);
    }
    hide SameChallenges;
    var head := [params.g, params.h];
    assert Encoded(toBytes, head + [1, 2]) == Encoded(toBytes, head + [2, 1]) by {
      EncodedTwo(toBytes, head, 1, 2);
      EncodedTwo(toBytes, head, 2, 1);
      assert Unary(1) + Unary(2) == Unary(2) + Unary(1);
      ConcatAssociates(Encoded(toBytes, head), Unary(1), Unary(2));
      ConcatAssociates(Encoded(toBytes, head), Unary(2), Unary(1));
    }
    SameChallengesIffAbsorbed(toBytes, params, [1, 2], extra, params, [2, 1], extra);
  }

  function Unary(x: int): seq<Byte> {
    if x >= 0 then seq(x, _ => 1) else seq(-x, _ => 2)
  }

  lemma UnaryIsInjective(x: int, y: int)
    ensures Unary(x) == Unary(y) <==> x == y
  {
    if x != y && |Unary(x)| == |Unary(y)| {
      assert Unary(x)[0] != Unary(y)[0];
    }
  }

  lemma EncodedTwo(toBytes: int -> seq<Byte>, head: seq<int>, x: int, y: int)
    ensures Encoded(toBytes, head + [x, y]) == Encoded(toBytes, head) + toBytes(x) + toBytes(y)
  {
    assert (head + [x, y])[..|head| + 1] == head + [x];
    assert (head + [x])[..|head|] == head;
  }

  /** What it absorbs, in order: the two bases, the three commitments, the four masks and
      the extra bytes. */
  lemma ProofChallengeBytes(o: Oracle, params: Params, p: Proof, extra: seq<Byte>)
    ensures var b := o.toBytes;
      var input := b(params.g) + b(params.h) + b(p.c_e) + b(p.c_u) + b(p.c_r)
                   + b(p.t_1) + b(p.t_2) + b(p.t_3) + b(p.t_4) + extra;
      var c := BigEndian(ProofChallenge(o, params, p, extra), 32);
      forall i | 0 <= i < 32 :: c[i] == o.xof(input, i)
  {
    hide Challenge, BigEndian, Encoded;
    var nums := [p.c_e, p.c_u, p.c_r, p.t_1, p.t_2, p.t_3, p.t_4];
    ChallengeBytes(o, params, nums, extra);
    var b := o.toBytes;
    var all := [params.g, params.h] + nums;
    EncodedNothing(b);
    EncodedTwo(b, [], params.g, params.h);
    EncodedTwo(b, [params.g, params.h], p.c_e, p.c_u);
    EncodedTwo(b, [params.g, params.h, p.c_e, p.c_u], p.c_r, p.t_1);
    EncodedTwo(b, [params.g, params.h, p.c_e, p.c_u, p.c_r, p.t_1], p.t_2, p.t_3);
    EncodedOne(b, [params.g, params.h, p.c_e, p.c_u, p.c_r, p.t_1, p.t_2, p.t_3], p.t_4);
    assert [] + [params.g, params.h] == [params.g, params.h];
    assert [params.g, params.h] + [p.c_e, p.c_u] == [params.g, params.h, p.c_e, p.c_u];
    assert [params.g, params.h, p.c_e, p.c_u] + [p.c_r, p.t_1] == [params.g, params.h, p.c_e, p.c_u, p.c_r, p.t_1];
    assert [params.g, params.h, p.c_e, p.c_u, p.c_r, p.t_1] + [p.t_2, p.t_3]
        == [params.g, params.h, p.c_e, p.c_u, p.c_r, p.t_1, p.t_2, p.t_3];
    assert all == [params.g, params.h, p.c_e, p.c_u, p.c_r, p.t_1, p.t_2, p.t_3] + [p.t_4];
    assert Absorbed(b, params, nums, extra)
        == b(params.g) + b(params.h) + b(p.c_e) + b(p.c_u) + b(p.c_r)
           + b(p.t_1) + b(p.t_2) + b(p.t_3) + b(p.t_4) + extra;
  }

  lemma EncodedNothing(toBytes: int -> seq<Byte>)
    ensures Encoded(toBytes, []) == []
  {}

  lemma EncodedOne(toBytes: int -> seq<Byte>, head: seq<int>, x: int)
    ensures Encoded(toBytes, head + [x]) == Encoded(toBytes, head) + toBytes(x)
  {
    assert (head + [x])[..|head|] == head;
  }

  // ----- what that means for the verifier -----

  /** A proof whose c_u is coprime to n satisfies the equations for one challenge only. */
  lemma OneChallengePerProof(k: Key, value: int, params: Params, p: Proof, c: nat, c': nat)
    requires k.Safe() && Pow2(CHALLENGE_SIZE) <= k.MinHalf() && QuadraticResidue(value, k.N()) && value != 1
    requires Unit(p.c_u, k.N()) && Unit(params.h, k.N())
    requires c < Pow2(CHALLENGE_SIZE) && c' < Pow2(CHALLENGE_SIZE)
    requires Equations(k.N(), value, params, p, c) && Equations(k.N(), value, params, p, c')
    ensures c == c'
  {
    hide Pow2, Unit, ModMul, ModPow, QuadraticResidue, Key.MinHalf, Key.N;
    var n := k.N();
    QuadraticResidueIsUnit(value, n);
    CancelFactors(ModPow(value, c, n), ModPow(value, c', n), p.c_u, p.s_alpha, params.h, -p.s_beta, n);
    var lo, hi := if c <= c' then c else c', if c <= c' then c' else c;
    PowAdd(value, lo, hi - lo, n);
    PowUnit(value, lo, n);
    MulOne(ModPow(value, lo, n), n);
    Cancel(ModPow(value, lo, n), ModPow(value, hi - lo, n), 1, n);
    if lo < hi {
      NoSmallOrder(k, value, hi - lo);
    }
  }

  /** A proof accepted with one nonce is accepted with another exactly when both give it one
      challenge, if c_u is coprime to n; the zero proof shows that this is needed. */
  lemma AcceptedForOneNonce(o: Oracle, k: Key, value: int, params: Params, p: Proof, extra: seq<Byte>, extra': seq<Byte>)
    requires k.Safe() && Pow2(CHALLENGE_SIZE) <= k.MinHalf() && QuadraticResidue(value, k.N()) && value != 1
    requires Unit(p.c_u, k.N()) && Unit(params.h, k.N())
    requires Accepts(o, k.N(), value, params, p, extra)
    ensures Accepts(o, k.N(), value, params, p, extra')
       <==> ProofChallenge(o, params, p, extra') == ProofChallenge(o, params, p, extra)
  {
    hide Pow2, Unit, Equations, QuadraticResidue, Challenge, Key.MinHalf, Key.N;
    var nums := [p.c_e, p.c_u, p.c_r, p.t_1, p.t_2, p.t_3, p.t_4];
    ChallengeBound(o, params, nums, extra);
    ChallengeBound(o, params, nums, extra');
    if Accepts(o, k.N(), value, params, p, extra') {
      OneChallengePerProof(k, value, params, p, ProofChallenge(o, params, p, extra), ProofChallenge(o, params, p, extra'));
    }
  }
}
