/** `hash_to_prime`, and why its outputs can always be inverted modulo phi. */
module HashToPrime {
  import opened Arithmetic
  import opened Bytes
  import opened Modular
  import opened Rsa
  import opened Roots
  import opened Updates
  import opened CLRSAB

  const P_SIZE: nat := 1536

  /** BLAKE3 as its i-th output byte for an input. */
  type Hash = (seq<Byte>, nat) -> Byte

  function Digest(h: Hash, input: seq<Byte>): (d: seq<Byte>)
    ensures |d| == 32
  {
    seq(32, i requires i >= 0 => h(input, i))
  }

  /** b | 1. */
  function SetLowBit(b: Byte): Byte {
    if b % 2 == 0 then b + 1 else b
  }

  /** The digest with the low bits of bytes 31 and 7 set. */
  function Marked(d: seq<Byte>): (m: seq<Byte>)
    requires |d| == 32
    ensures |m| == 32
  {
    d[31 := SetLowBit(d[31])][7 := SetLowBit(d[7])]
  }

  /** The eight bytes of the 64-bit counter. */
  function Counter(k: nat): seq<Byte> {
    BigEndian(k, 8)
  }

  /** What is hashed in the k-th attempt. */
  function Attempt(h: Hash, input: seq<Byte>, k: nat): seq<Byte> {
    (if k == 0 then input else Marked(Digest(h, Attempt(h, input, k - 1)))) + Counter(k + 1)
  }

  function Candidate(h: Hash, input: seq<Byte>, k: nat): nat {
    FromBytes(Marked(Digest(h, Attempt(h, input, k))))
  }

  /** An odd number strictly between 2^192 and 2^256. */
  predicate InHashRange(x: nat) {
    x % 2 == 1 && Pow2(192) < x < Pow2(256)
  }

  /** Only the two low bits change. */
  lemma MarkedBits(d: seq<Byte>)
    requires |d| == 32
    ensures Marked(d)[31] % 2 == 1 && Marked(d)[7] % 2 == 1
    ensures forall i | 0 <= i < 32 :: Marked(d)[i] / 2 == d[i] / 2 && (i != 7 && i != 31 ==> Marked(d)[i] == d[i])
  {}

  /** What an attempt hashes.  The first is the input with the counter 1, so inputs are kept
      apart; a later one is the 32 marked digest bytes of the attempt before it with the next
      counter. */
  lemma AttemptChain(h: Hash, input: seq<Byte>, k: nat)
    ensures var a := Attempt(h, input, k);
      && |a| == 8 + (if k == 0 then |input| else 32)
      && FromBytes(a[|a| - 8..]) == (k + 1) % Pow2(64)
      && a[..|a| - 8] == if k == 0 then input else Marked(Digest(h, Attempt(h, input, k - 1)))
  {
    hide Pow2, FromBytes, BigEndian, Marked, Digest;
    var a := Attempt(h, input, k);
    BigEndianTruncates(k + 1, 8);
    assert a[|a| - 8..] == Counter(k + 1);
  }

  lemma FirstAttemptIsInjective(h: Hash, a: seq<Byte>, b: seq<Byte>)
    ensures Attempt(h, a, 0) == Attempt(h, b, 0) <==> a == b
  {
    hide Pow2, FromBytes, Attempt;
    AttemptChain(h, a, 0);
    AttemptChain(h, b, 0);
  }

  /** A candidate is the 32 hash bytes of its attempt, most significant first, up to the low
      bits of bytes 7 and 31, which are set. */
  lemma CandidateBytes(h: Hash, input: seq<Byte>, k: nat)
    ensures var c := BigEndian(Candidate(h, input, k), 32);
      && c[7] % 2 == 1 && c[31] % 2 == 1
      && (forall i | 0 <= i < 32 :: c[i] / 2 == h(Attempt(h, input, k), i) / 2)
      && (forall i | 0 <= i < 32 && i != 7 && i != 31 :: c[i] == h(Attempt(h, input, k), i))
  {
    hide FromBytes, BigEndian, Marked, Attempt;
    var d := Digest(h, Attempt(h, input, k));
    MarkedBits(d);
    BytesRoundTrip(Marked(d));
  }

  /** Different inputs are hashed differently: some hash tells their first candidates apart. */
  lemma InputsAreKeptApart(a: seq<Byte>, b: seq<Byte>)
    requires a != b
    ensures exists h: Hash :: Candidate(h, a, 0) != Candidate(h, b, 0)
  {
    hide FromBytes, BigEndian, Marked, Candidate;
    var first := a + Counter(1);
    var h: Hash := (s: seq<Byte>, i: nat) => if s == first then 2 else 0;
    FirstAttemptIsInjective(h, a, b);
    CandidateBytes(h, a, 0);
    CandidateBytes(h, b, 0);
    assert BigEndian(Candidate(h, a, 0), 32)[0] != BigEndian(Candidate(h, b, 0), 32)[0];
  }

  lemma MarkedRange(d: seq<Byte>)
    requires |d| == 32
    ensures InHashRange(FromBytes(Marked(d)))
  {
    hide Pow2, FromBytes, Marked;
    var m := Marked(d);
    MarkedBits(d);
    var top, low := m[..8], m[8..];
    assert m == top + low && top[7] == m[7] && low[23] == m[31];
    FromBytesAppend(top, low);
    FromBytesBound(m);
    LastByte(top);
    LastByte(low);
    Pow2Increases(191, 192);
    EvenPower();
    TopByteCounts(FromBytes(top), Pow2(192), FromBytes(low));
  }

  lemma EvenPower()
    ensures Pow2(192) == 2 * Pow2(191)
  {}

  lemma TopByteCounts(top: nat, unit: nat, low: nat)
    requires top >= 1 && unit % 2 == 0 && low % 2 == 1
    ensures top * unit + low > unit && (top * unit + low) % 2 == 1
  {
    assert top * unit == unit + (top - 1) * unit;
    assert top * unit == 2 * (top * (unit / 2)) by {
      Associate(top, 2, unit / 2);
    }
  }

  /** `prime` is the first prime among the candidates for this input. */
  ghost predicate IsHashOf(h: Hash, input: seq<Byte>, prime: nat) {
    exists k: nat ::
      && prime == Candidate(h, input, k)
      && IsPrime(prime)
      && forall j: nat | j < k :: !IsPrime(Candidate(h, input, j))
  }

  /** One input has one prime. */
  lemma HashIsDetermined(h: Hash, input: seq<Byte>, prime: nat, prime': nat)
    requires IsHashOf(h, input, prime) && IsHashOf(h, input, prime')
    ensures prime == prime'
  {
    hide IsPrime, Candidate;
    var k: nat :| prime == Candidate(h, input, k) && IsPrime(prime) && forall j: nat | j < k :: !IsPrime(Candidate(h, input, j));
    var k': nat :| prime' == Candidate(h, input, k') && IsPrime(prime') && forall j: nat | j < k' :: !IsPrime(Candidate(h, input, j));
    assert !(k < k') && !(k' < k);
  }

  /** The loop returns the first prime among the candidates.  That there is one is what its
      termination rests on; `tries` is the index of some prime candidate. */
  method HashToPrime(h: Hash, input: seq<Byte>, ghost tries: nat) returns (prime: nat)
    requires IsPrime(Candidate(h, input, tries))
    ensures IsHashOf(h, input, prime) && InHashRange(prime)
  {
    hide IsPrime, Pow2, FromBytes;
    var counter := 1;
    var data := input + Counter(counter);
    while true
      invariant counter >= 1 && data == Attempt(h, input, counter - 1)
      invariant forall j: nat | j < counter - 1 :: !IsPrime(Candidate(h, input, j))
      decreases tries + 1 - counter
    {
      var digest := Digest(h, data);
      var hash := new Byte[32](i requires 0 <= i < 32 => digest[i]);
      hash[31] := SetLowBit(hash[31]);
      hash[7] := SetLowBit(hash[7]);
      assert hash[..] == Marked(digest);
      prime := FromBytes(hash[..]);
      assert prime == Candidate(h, input, counter - 1);
      if IsPrime(prime) {
        MarkedRange(digest);
        return;
      }
      counter := counter + 1;
      data := hash[..] + Counter(counter);
    }
  }

  /** Keys as generated: safe primes of 1536 bits. */
  ghost predicate LargeKey(k: Key) {
    k.Safe() && Pow2(P_SIZE - 1) <= k.p && Pow2(P_SIZE - 1) <= k.q
  }

  lemma LargeHalves(k: Key)
    requires LargeKey(k)
    ensures Pow2(256) < k.MinHalf()
  {
    hide Pow2;
    Pow2Increases(256, 257);
    Pow2Increases(257, 258);
    Pow2Increases(258, P_SIZE - 1);
    Pow2Increases(0, 256);
    PowZeroIsOne();
  }

  /** A prime out of the hash range is below p' and q' and inverts modulo phi. */
  lemma HashedPrimeInverts(k: Key, x: nat)
    requires LargeKey(k) && IsPrime(x) && InHashRange(x)
    ensures 2 < x < k.MinHalf() && Invert(x, k.Phi()).Some?
  {
    hide Pow2, Unit;
    LargeHalves(k);
    Pow2Increases(1, 192);
    PowOneIsTwo();
    SmallPrimeIsInvertible(k, x);
  }

  lemma PowOneIsTwo()
    ensures Pow2(1) == 2
  {}

  /** No `invert(phi).unwrap()` of the accumulator can fail on hashed elements: neither for
      one element, nor for a raw batch product, nor for a product reduced modulo phi. */
  lemma InversionsNeverFail(k: Key, xs: seq<nat>)
    requires LargeKey(k)
    requires forall i | 0 <= i < |xs| :: IsPrime(xs[i]) && InHashRange(xs[i])
    ensures Invertible(xs, k.Phi())
    ensures Invert(FoldRaw(1, xs), k.Phi()).Some?
    ensures Invert(FoldReduced(1, xs, k.Phi()), k.Phi()).Some?
  {
    hide Unit, IsPrime, InHashRange, ModMul, ModPow;
    forall i | 0 <= i < |xs| ensures Unit(xs[i], k.Phi()) {
      HashedPrimeInverts(k, xs[i]);
    }
    ProductInvertible(xs, k.Phi());
    FoldRawIsProduct(1, xs);
    OnePow(0, k.Phi());
    ReducedBatchRoot(k, 1, xs);
  }
}
