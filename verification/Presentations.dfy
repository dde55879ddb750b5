/** Who is accepted by `verify_mem_proof` in a run, presenting as `prove_mem` does: live holders,
    revoked holders, and the public value in the place of a witness. */
module Presentations {
  import opened Arithmetic
  import opened Bytes
  import opened Modular
  import opened Rsa
  import opened Roots
  import opened Updates
  import opened CLRSAB
  import opened Runs
  import opened MembershipProof

  /** The verifier's answer to a presentation of `item` with witness u. */
  predicate PresentationAccepted(o: Oracle, n: Modulus, value: int, params: Params, item: nat, u: int, r: Sample,
                                 extra: seq<Byte>)
  {
    Accepts(o, n, value, params, ProveMem(o, n, params, item, u, r, extra), extra)
  }

  /** The challenge of that presentation. */
  function OwnChallenge(o: Oracle, n: Modulus, params: Params, item: nat, u: int, r: Sample, extra: seq<Byte>): nat {
    ProofChallenge(o, params, ProveMem(o, n, params, item, u, r, extra), extra)
  }

  // ----- witnesses are quadratic residues -----

  lemma UpdateStaysQuadratic(n: Modulus, v: int, u: int, a: int, b: int)
    requires QuadraticResidue(v, n) && QuadraticResidue(u, n)
    ensures QuadraticResidue(UpdatedWitness(n, v, u, a, b), n)
  {
    hide ModMul, ModPow, QuadraticResidue;
    PowerOfQuadraticResidue(u, b, n);
    PowerOfQuadraticResidue(v, a, n);
    ProductOfQuadraticResidues(ModPow(u, b, n), ModPow(v, a, n), n);
  }

  lemma {:induction false} OneByOneStaysQuadratic(k: Key, v: int, u: int, xs: seq<nat>, pairs: seq<(int, int)>)
    requires k.Valid() && Invertible(xs, k.Phi()) && |pairs| == |xs|
    requires QuadraticResidue(v, k.N()) && QuadraticResidue(u, k.N())
    ensures QuadraticResidue(OneByOne(k, v, u, xs, pairs), k.N())
    decreases |xs|
  {
    hide Unit, Root, UpdatedWitness, QuadraticResidue;
    if xs == [] {
    } else {
      var v' := Root(k, v, xs[0]);
      RootOfQuadraticResidue(k, v, xs[0]);
      UpdateStaysQuadratic(k.N(), v', u, pairs[0].0, pairs[0].1);
      OneByOneStaysQuadratic(k, v', UpdatedWitness(k.N(), v', u, pairs[0].0, pairs[0].1), xs[1..], pairs[1..]);
    }
  }

  lemma WitnessIsQuadratic(k: Key, v: int, x: nat, u: int)
    requires k.Valid() && QuadraticResidue(v, k.N()) && Unit(x, k.Phi())
    requires Residue(u, k.N()) && Verifies(k.N(), v, x, u)
    ensures QuadraticResidue(u, k.N())
  {
    hide Unit, Root, ModPow, QuadraticResidue;
    QuadraticResidueIsUnit(v, k.N());
    RootIsUnique(k, v, x, u);
    RootOfQuadraticResidue(k, v, x);
  }

  // ----- presentations in runs -----

  /** In every state of every run a live holder that has applied everything published is
      accepted, for every sample and every `extra`. */
  lemma LiveHolderIsAccepted(o: Oracle, k: Key, v: int, events: seq<Event>, states: seq<System>, i: nat, x: nat,
                             params: Params, r: Sample, extra: seq<Byte>)
    requires IsRun(k, v, events, states) && i < |states| && x in states[i].holders
    requires states[i].holders[x].seen == |states[i].log|
    requires Units(params.g, params.h, k.N())
    ensures PresentationAccepted(o, k.N(), states[i].Current(), params, x, states[i].holders[x].u, r, extra)
  {
    hide Unit, Root, ModPow, IsRun, IsPrime, Accepts, ProveMem, Verifies, LiveAfter;
    var s := states[i];
    LiveIffIssued(k, v, events, states, i, x);
    RunSafety(k, v, events, states, i, x);
    ReachableHolder(k, v, events, states, i, x);
    ValueIsUnit(k, s, |s.log|);
    RootOfUnit(k, s.Current(), x);
    Completeness(o, k.N(), s.Current(), params, x, s.holders[x].u, r, extra);
  }

  /** In every state of every run a revoked holder that has applied everything published is
      rejected, unless its challenge is 0: revocation takes effect at the proof verifier as it
      does at `verify_mem`. */
  lemma RevokedHolderIsRejected(o: Oracle, k: Key, v: int, events: seq<Event>, states: seq<System>, i: nat,
                                j: nat, x: nat, u: int, a: int, b: int, pairs: seq<(int, int)>,
                                params: Params, r: Sample, extra: seq<Byte>)
    requires IsRun(k, v, events, states) && i < |states|
    requires k.Safe() && Pow2(CHALLENGE_SIZE) <= k.MinHalf() && QuadraticResidue(v, k.N()) && v != 1
    requires Element(k, x) && x < k.MinHalf() && j < |states[i].log|
    requires Residue(u, k.N()) && Verifies(k.N(), states[i].Value(j), x, u)
    requires states[i].log[j].update.Removal? && Gcd(x, states[i].log[j].update.x) == x
    requires IsBezout(a, b, x, states[i].log[j].update.x)
    requires forall l | j < l < |states[i].log| :: states[i].log[l].update != Removal(x)
    requires |pairs| == |Pending(states[i], j + 1)|
    requires forall l | 0 <= l < |pairs| :: LibraryPair(pairs[l].0, pairs[l].1, x, Pending(states[i], j + 1)[l])
    requires Units(params.g, params.h, k.N())
    ensures Invertible(Pending(states[i], j + 1), k.Phi())
    ensures var s := states[i];
      var w := OneByOne(k, s.Value(j + 1), UpdatedWitness(k.N(), s.Value(j + 1), u, a, b), Pending(s, j + 1), pairs);
      PresentationAccepted(o, k.N(), s.Current(), params, x, w, r, extra)
      <==> OwnChallenge(o, k.N(), params, x, w, r, extra) == 0
  {
    hide Unit, Root, ModPow, Pow2, Gcd, UpdatedWitness, OneByOne, Pending, QuadraticResidue, Verifies, LibraryPair, IsRun,
         Accepts, ProveMem, ProofChallenge, IsPrime;
    var s := states[i];
    var w0 := UpdatedWitness(k.N(), s.Value(j + 1), u, a, b);
    RevocationInRuns(k, v, events, states, i, j, x, u, a, b, pairs);
    RunValuesAreQuadratic(k, v, events, states, i, j);
    RunValuesAreQuadratic(k, v, events, states, i, j + 1);
    RunValuesAreQuadratic(k, v, events, states, i, |s.log|);
    WitnessIsQuadratic(k, s.Value(j), x, u);
    UpdateStaysQuadratic(k.N(), s.Value(j + 1), u, a, b);
    OneByOneStaysQuadratic(k, s.Value(j + 1), w0, Pending(s, j + 1), pairs);
    AcceptedIffVerifiesOrZero(o, k, s.Current(), params, x, OneByOne(k, s.Value(j + 1), w0, Pending(s, j + 1), pairs), r, extra);
  }

  lemma RunValuesAreQuadratic(k: Key, v: int, events: seq<Event>, states: seq<System>, i: nat, j: nat)
    requires IsRun(k, v, events, states) && i < |states| && j <= |states[i].log|
    requires QuadraticResidue(v, k.N()) && v != 1
    ensures k.Valid() && QuadraticResidue(states[i].Value(j), k.N()) && states[i].Value(j) != 1
  {
    hide QuadraticResidue, Next, ValidHolder, UnitResidue;
    RunKeepsInv(k, v, events, states, i);
    InitialNeverChanges(k, v, events, states, i);
    ValuesStayQuadratic(k, states[i], j);
  }

  // ----- the public value as a witness -----

  /** The value is its own first root, so everyone can present the item 1: the proof is
      accepted, inside the intended bound too.  No holder's item is 1. */
  lemma ItemOneIsAccepted(o: Oracle, n: Modulus, value: int, params: Params, r: Sample, extra: seq<Byte>)
    requires UnitResidue(value, n) && Units(params.g, params.h, n) && InRange(n, r)
    ensures var p := ProveMem(o, n, params, 1, value, r, extra);
      && PresentationAccepted(o, n, value, params, 1, value, r, extra)
      && IntendedVerifier(n, value, params, p, ProofChallenge(o, params, p, extra))
  {
    hide Unit, ModPow, Pow2, ModMul, ProofChallenge, ProveMem, InRange, Equations;
    PowOne(value, n);
    Pow2Increases(0, H2P_SIZE);
    PowZeroIsOne();
    Completeness(o, n, value, params, 1, value, r, extra);
    HonestResponseBounds(o, n, params, 1, value, r, extra);
  }

  /** With the public value as witness, the item 1 is the only one accepted, up to the
      challenge 0. */
  lemma ValueAsWitness(o: Oracle, k: Key, value: int, params: Params, item: nat, r: Sample, extra: seq<Byte>)
    requires k.Safe() && Pow2(CHALLENGE_SIZE) <= k.MinHalf() && QuadraticResidue(value, k.N()) && value != 1
    requires item <= k.MinHalf() && Units(params.g, params.h, k.N())
    ensures PresentationAccepted(o, k.N(), value, params, item, value, r, extra)
       <==> item == 1 || OwnChallenge(o, k.N(), params, item, value, r, extra) == 0
  {
    hide Unit, ModPow, Pow2, QuadraticResidue, Accepts, ProveMem, ProofChallenge, Key.MinHalf, Key.N;
    AcceptedIffVerifiesOrZero(o, k, value, params, item, value, r, extra);
    QuadraticResidueIsUnit(value, k.N());
    if item == 0 {
      PowZero(value, k.N());
    } else if item == 1 {
      PowOne(value, k.N());
    } else {
      PowerFixesOnlyOne(k, value, item);
    }
  }

  /** What a revoked holder's own update leaves it with: it can present the item 1, as everyone
      can, and no other item, its own included. */
  lemma RevokedUpdatePresents(o: Oracle, k: Key, v: int, u: int, x: nat, d: nat, a: int, b: int, params: Params,
                              item: nat, r: Sample, extra: seq<Byte>)
    requires k.Safe() && Pow2(CHALLENGE_SIZE) <= k.MinHalf() && QuadraticResidue(v, k.N()) && v != 1
    requires Unit(x, k.Phi()) && Residue(u, k.N()) && Verifies(k.N(), v, x, u)
    requires Unit(d, k.Phi()) && Gcd(x, d) == x && IsBezout(a, b, x, d)
    requires item <= k.MinHalf() && Units(params.g, params.h, k.N())
    ensures var v' := Root(k, v, d);
      var w := UpdatedWitness(k.N(), v', u, a, b);
      PresentationAccepted(o, k.N(), v', params, item, w, r, extra)
      <==> item == 1 || OwnChallenge(o, k.N(), params, item, w, r, extra) == 0
  {
    hide Unit, ModPow, Pow2, Gcd, QuadraticResidue, Accepts, ProveMem, ProofChallenge, Root, UpdatedWitness, Verifies,
         Key.MinHalf, Key.N;
    RootOfQuadraticResidue(k, v, d);
    RevokedUpdateIsNewValue(k, v, u, x, d, a, b);
    ValueAsWitness(o, k, Root(k, v, d), params, item, r, extra);
  }
}
