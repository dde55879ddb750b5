/** Bytes, big-endian numbers and powers of two. */
module Bytes {
  import opened Arithmetic

  type Byte = b: int | 0 <= b < 256

  function Pow2(e: nat): (r: nat)
    ensures r >= 1
  {
    if e == 0 then 1 else 2 * Pow2(e - 1)
  }

  lemma {:induction false} Pow2Adds(e: nat, f: nat)
    ensures Pow2(e + f) == Pow2(e) * Pow2(f)
  {
    if e == 0 {
    } else {
      Pow2Adds(e - 1, f);
      assert 2 * (Pow2(e - 1) * Pow2(f)) == (2 * Pow2(e - 1)) * Pow2(f);
    }
  }

  lemma {:induction false} Pow2Increases(e: nat, f: nat)
    requires e < f
    ensures 2 * Pow2(e) <= Pow2(f)
    decreases f
  {
    if e == f - 1 {
    } else {
      Pow2Increases(e, f - 1);
    }
  }

  lemma PowZeroIsOne()
    ensures Pow2(0) == 1
  {}

  lemma Pow2Of8()
    ensures Pow2(8) == 256
  {}

  /** `BigNumber::from_slice`: the most significant byte comes first. */
  function FromBytes(bytes: seq<Byte>): nat {
    if bytes == [] then 0 else FromBytes(bytes[..|bytes| - 1]) * 256 + bytes[|bytes| - 1]
  }

  lemma {:induction false} FromBytesBound(bytes: seq<Byte>)
    ensures FromBytes(bytes) < Pow2(8 * |bytes|)
  {
    if bytes == [] {
    } else {
      FromBytesBound(bytes[..|bytes| - 1]);
      Pow2Adds(8, 8 * (|bytes| - 1));
      Pow2Of8();
    }
  }

  /** Appending bytes shifts what came before. */
  lemma {:induction false} FromBytesAppend(a: seq<Byte>, b: seq<Byte>)
    ensures FromBytes(a + b) == FromBytes(a) * Pow2(8 * |b|) + FromBytes(b)
  {
    hide Pow2;
    PowZeroIsOne();
    if b == [] {
      assert a + b == a;
    } else {
      var m := |b| - 1;
      assert (a + b)[..|a + b| - 1] == a + b[..m];
      FromBytesAppend(a, b[..m]);
      Pow2Adds(8 * m, 8);
      Pow2Of8();
      ShiftByte(FromBytes(a), Pow2(8 * m), FromBytes(b[..m]), b[m]);
    }
  }

  lemma ShiftByte(x: nat, y: nat, z: nat, w: nat)
    ensures (x * y + z) * 256 + w == x * (y * 256) + (z * 256 + w)
  {}

  /** The last byte is the low byte. */
  lemma LastByte(bytes: seq<Byte>)
    requires bytes != []
    ensures FromBytes(bytes) >= bytes[|bytes| - 1] && FromBytes(bytes) % 2 == bytes[|bytes| - 1] % 2
  {}

  /** `to_be_bytes`: the low `len` bytes, most significant first. */
  function BigEndian(n: nat, len: nat): (bytes: seq<Byte>)
    ensures |bytes| == len
  {
    if len == 0 then [] else BigEndian(n / 256, len - 1) + [n % 256]
  }

  lemma {:induction false} BigEndianRoundTrip(n: nat, len: nat)
    requires n < Pow2(8 * len)
    ensures FromBytes(BigEndian(n, len)) == n
  {
    if len == 0 {
    } else {
      Pow2Adds(8 * (len - 1), 8);
      Pow2Of8();
      BigEndianRoundTrip(n / 256, len - 1);
    }
  }

  /** Encoding in as many bytes inverts decoding. */
  lemma {:induction false} BytesRoundTrip(bytes: seq<Byte>)
    ensures BigEndian(FromBytes(bytes), |bytes|) == bytes
  {
    if bytes == [] {
    } else {
      var m := |bytes| - 1;
      BytesRoundTrip(bytes[..m]);
      assert bytes == bytes[..m] + [bytes[m]];
    }
  }

  /** A number that does not fit loses its high bytes. */
  lemma {:induction false} BigEndianTruncates(n: nat, len: nat)
    ensures FromBytes(BigEndian(n, len)) == n % Pow2(8 * len)
  {
    hide Pow2;
    PowZeroIsOne();
    if len == 0 {
    } else {
      BigEndianTruncates(n / 256, len - 1);
      Pow2Adds(8 * (len - 1), 8);
      Pow2Of8();
      LowByte(n, Pow2(8 * (len - 1)));
    }
  }

  lemma LowByte(n: nat, p: nat)
    requires p >= 1
    ensures p * 256 >= 1 && (n / 256 % p) * 256 + n % 256 == n % (p * 256)
  {
    var m := n / 256;
    assert m == p * (m / p) + m % p;
    Associate(p, m / p, 256);
    MulCommutative(m / p, 256);
    Associate(p, 256, m / p);
    RemainderIsUnique(n, m / p, (m % p) * 256 + n % 256, p * 256);
  }
}
