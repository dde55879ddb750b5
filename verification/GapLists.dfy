/** The holder-update lists of the signed-pairs benchmarks: closed gaps that tile an initial
    segment of the identifiers, the linear scan over them, and the signed 24-byte encoding. */
module GapLists {
  import opened Bytes
  import opened Options
  import opened Sequences

  datatype Gap = Gap(lo: nat, hi: nat)

  predicate Contains(g: Gap, uid: nat) {
    g.lo <= uid <= g.hi
  }

  /** Non-empty closed gaps from 0 on, each starting right after the one before. */
  ghost predicate Tiles(gaps: seq<Gap>) {
    && (|gaps| > 0 ==> gaps[0].lo == 0)
    && (forall i | 0 <= i < |gaps| :: gaps[i].lo <= gaps[i].hi)
    && (forall i | 0 < i < |gaps| :: gaps[i].lo == gaps[i - 1].hi + 1)
  }

  /** The number of identifiers covered. */
  function End(gaps: seq<Gap>): nat {
    if gaps == [] then 0 else gaps[|gaps| - 1].hi + 1
  }

  /** The scan `gaps.iter().find(..)`: the index of the first gap that contains `uid`. */
  function Find(gaps: seq<Gap>, uid: nat): (r: Option<nat>)
    ensures r.Some? ==> r.value < |gaps| && Contains(gaps[r.value], uid)
    ensures r.Some? ==> forall i | 0 <= i < r.value :: !Contains(gaps[i], uid)
    ensures r.None? ==> forall i | 0 <= i < |gaps| :: !Contains(gaps[i], uid)
  {
    if gaps == [] then None
    else if Contains(gaps[0], uid) then Some(0)
    else
      assert forall i | 0 < i < |gaps| :: gaps[i] == gaps[1..][i - 1];
      match Find(gaps[1..], uid)
      case None => None
      case Some(i) => Some(i + 1)
  }

  lemma {:induction false} TilesAreOrdered(gaps: seq<Gap>, i: nat, j: nat)
    requires Tiles(gaps) && i < j < |gaps|
    ensures gaps[i].hi < gaps[j].lo
    decreases j
  {
    if i == j - 1 {
    } else {
      TilesAreOrdered(gaps, i, j - 1);
    }
  }

  lemma {:induction false} TilesCover(gaps: seq<Gap>, uid: nat) returns (i: nat)
    requires Tiles(gaps) && uid < End(gaps)
    ensures i < |gaps| && Contains(gaps[i], uid)
  {
    i := |gaps| - 1;
    if uid < gaps[i].lo {
      assert Tiles(gaps[..i]);
      i := TilesCover(gaps[..i], uid);
    }
  }

  /** The scan finds the one gap an identifier belongs to: it succeeds exactly on the covered
      identifiers, and its answer is the only gap that contains them. */
  lemma FindInTiles(gaps: seq<Gap>, uid: nat, i: nat)
    requires Tiles(gaps)
    ensures Find(gaps, uid).Some? <==> uid < End(gaps)
    ensures i < |gaps| ==> (Contains(gaps[i], uid) <==> Find(gaps, uid) == Some(i))
  {
    var r := Find(gaps, uid);
    if uid < End(gaps) {
      var j := TilesCover(gaps, uid);
    }
    if r.Some? {
      if r.value < |gaps| - 1 {
        TilesAreOrdered(gaps, r.value, |gaps| - 1);
      }
      if i < |gaps| && r.value < i {
        TilesAreOrdered(gaps, r.value, i);
      }
    }
  }

  lemma NoTiles()
    ensures Tiles([]) && End([]) == 0
  {}

  lemma TilesAppend(gaps: seq<Gap>, g: Gap)
    requires Tiles(gaps) && g.lo == End(gaps) && g.lo <= g.hi
    ensures Tiles(gaps + [g]) && End(gaps + [g]) == g.hi + 1
  {}

  /** `build_holder_update_setup`: gaps of width 2 around a target of width 3. */
  method BuildHolderUpdateGaps(n: nat) returns (gaps: seq<Gap>, uid: nat)
    requires 1 <= n && IsU64(2 * n)
    ensures |gaps| == n && Tiles(gaps) && End(gaps) == 2 * n + 1
    ensures forall i | 0 <= i < n :: gaps[i].hi - gaps[i].lo == if i == n / 2 then 2 else 1
    ensures gaps[n / 2].lo < uid < gaps[n / 2].hi
    ensures Find(gaps, uid) == Some(n / 2)
  {
    hide Tiles, Find, IsU64;
    var half := n / 2;
    gaps := [];
    NoTiles();
    for i := 0 to half
      invariant |gaps| == i && Tiles(gaps) && End(gaps) == 2 * i
      invariant forall j | 0 <= j < i :: gaps[j].hi - gaps[j].lo == 1
    {
      TilesAppend(gaps, Gap(i * 2, i * 2 + 1));
      gaps := gaps + [Gap(i * 2, i * 2 + 1)];
    }
    var targetLo := half * 2;
    var targetHi := targetLo + 2;
    uid := targetLo + 1;
    TilesAppend(gaps, Gap(targetLo, targetHi));
    gaps := gaps + [Gap(targetLo, targetHi)];
    for i := 0 to n - half - 1
      invariant |gaps| == half + 1 + i && Tiles(gaps) && End(gaps) == targetHi + 1 + 2 * i
      invariant gaps[half] == Gap(targetLo, targetHi)
      invariant forall j | 0 <= j < |gaps| && j != half :: gaps[j].hi - gaps[j].lo == 1
    {
      TilesAppend(gaps, Gap(targetHi + 1 + i * 2, targetHi + 2 + i * 2));
      gaps := gaps + [Gap(targetHi + 1 + i * 2, targetHi + 2 + i * 2)];
    }
    FindInTiles(gaps, uid, half);
  }

  /** `build_setup` of the ECDSA benchmark: gaps of width 10. */
  method BuildEcdsaGaps(n: nat) returns (gaps: seq<Gap>, uid: nat)
    requires n >= 1 ==> IsU64(10 * n - 1)
    ensures |gaps| == n && Tiles(gaps) && End(gaps) == 10 * n
    ensures forall i | 0 <= i < n :: gaps[i].hi - gaps[i].lo == 9
    ensures n >= 1 ==> uid == gaps[n / 2].lo + 4
    ensures n >= 1 ==> gaps[n / 2].lo < uid < gaps[n / 2].hi && Find(gaps, uid) == Some(n / 2)
    ensures n == 0 ==> Find(gaps, uid) == None
  {
    hide Tiles, Find, IsU64;
    var half := n / 2;
    gaps := [];
    NoTiles();
    for i := 0 to n
      invariant |gaps| == i && Tiles(gaps) && End(gaps) == 10 * i
      invariant forall j | 0 <= j < i :: gaps[j].hi - gaps[j].lo == 9
      invariant half < i ==> gaps[half] == Gap(half * 10, half * 10 + 9)
    {
      var lower := i * 10;
      var upper := lower + 9;
      TilesAppend(gaps, Gap(lower, upper));
      gaps := gaps + [Gap(lower, upper)];
    }
    uid := half * 10 + 4;
    FindInTiles(gaps, uid, half);
  }

  // ----- the signed encoding -----

  /** What a gap's signature covers: epoch, lower and upper, eight bytes each. */
  function Encoding(epoch: nat, lower: nat, upper: nat): (msg: seq<Byte>)
    ensures |msg| == 24
  {
    BigEndian(epoch, 8) + BigEndian(lower, 8) + BigEndian(upper, 8)
  }

  method CopyInto(msg: array<Byte>, at: nat, bytes: seq<Byte>)
    requires at + |bytes| <= msg.Length
    modifies msg
    ensures msg[..] == old(msg[..at]) + bytes + old(msg[at + |bytes|..])
  {
    for i := 0 to |bytes|
      invariant msg[..at] == old(msg[..at]) && msg[at..at + i] == bytes[..i]
      invariant msg[at + i..] == old(msg[at + i..])
    {
      msg[at + i] := bytes[i];
    }
  }

  method EncodeGap(epoch: nat, lower: nat, upper: nat) returns (msg: array<Byte>)
    ensures fresh(msg) && msg[..] == Encoding(epoch, lower, upper)
  {
    msg := new Byte[24](_ => 0);
    CopyInto(msg, 0, BigEndian(epoch, 8));
    CopyInto(msg, 8, BigEndian(lower, 8));
    CopyInto(msg, 16, BigEndian(upper, 8));
  }

  function Decoding(msg: seq<Byte>): (nat, nat, nat)
    requires |msg| == 24
  {
    (FromBytes(msg[..8]), FromBytes(msg[8..16]), FromBytes(msg[16..]))
  }

  predicate IsU64(x: nat) {
    x < Pow2(64)
  }

  /** Decoding inverts encoding, so two triples with one encoding are the same triple. */
  lemma EncodingRoundTrip(epoch: nat, lower: nat, upper: nat)
    requires IsU64(epoch) && IsU64(lower) && IsU64(upper)
    ensures Decoding(Encoding(epoch, lower, upper)) == (epoch, lower, upper)
  {
    hide Pow2;
    var msg := Encoding(epoch, lower, upper);
    assert msg[..8] == BigEndian(epoch, 8);
    assert msg[8..16] == BigEndian(lower, 8);
    assert msg[16..] == BigEndian(upper, 8);
    BigEndianRoundTrip(epoch, 8);
    BigEndianRoundTrip(lower, 8);
    BigEndianRoundTrip(upper, 8);
  }

  /** Dictionary order on byte strings. */
  predicate LexLess(a: seq<Byte>, b: seq<Byte>) {
    b != [] && (a == [] || a[0] < b[0] || (a[0] == b[0] && LexLess(a[1..], b[1..])))
  }

  lemma {:induction false} LexAppend(a: seq<Byte>, b: seq<Byte>, c: seq<Byte>, d: seq<Byte>)
    requires |a| == |b|
    ensures LexLess(a + c, b + d) <==> LexLess(a, b) || (a == b && LexLess(c, d))
  {
    if a == [] {
      assert a + c == c && b + d == d;
    } else {
      assert (a + c)[1..] == a[1..] + c && (b + d)[1..] == b[1..] + d;
      LexAppend(a[1..], b[1..], c, d);
      assert a == [a[0]] + a[1..] && b == [b[0]] + b[1..];
    }
  }

  /** Big-endian bytes of one length are ordered as the numbers they stand for. */
  lemma {:induction false} LexIsNumeric(x: nat, y: nat, len: nat)
    requires x < Pow2(8 * len) && y < Pow2(8 * len)
    ensures LexLess(BigEndian(x, len), BigEndian(y, len)) <==> x < y
    ensures BigEndian(x, len) == BigEndian(y, len) <==> x == y
  {
    hide LexLess, Pow2, FromBytes;
    PowZeroIsOne();
    NothingLess();
    if len == 0 {
    } else {
      Pow2Adds(8 * (len - 1), 8);
      Pow2Of8();
      LexIsNumeric(x / 256, y / 256, len - 1);
      LexAppend(BigEndian(x / 256, len - 1), BigEndian(y / 256, len - 1), [x % 256], [y % 256]);
      OneByteOrder(x % 256, y % 256);
      HighPartFirst(x, y);
      BigEndianRoundTrip(x, len);
      BigEndianRoundTrip(y, len);
    }
  }

  lemma NothingLess()
    ensures !LexLess([], [])
  {}

  lemma OneByteOrder(a: Byte, b: Byte)
    ensures LexLess([a], [b]) <==> a < b
  {}

  lemma HighPartFirst(x: nat, y: nat)
    ensures x < y <==> x / 256 < y / 256 || (x / 256 == y / 256 && x % 256 < y % 256)
  {}

  /** The byte order of encodings is the lexicographic order of the triples. */
  lemma EncodingOrder(e: nat, l: nat, u: nat, e': nat, l': nat, u': nat)
    requires IsU64(e) && IsU64(l) && IsU64(u) && IsU64(e') && IsU64(l') && IsU64(u')
    ensures LexLess(Encoding(e, l, u), Encoding(e', l', u'))
       <==> e < e' || (e == e' && (l < l' || (l == l' && u < u')))
    ensures Encoding(e, l, u) == Encoding(e', l', u') <==> (e, l, u) == (e', l', u')
  {
    hide Pow2, BigEndian, LexLess;
    LexIsNumeric(e, e', 8);
    LexIsNumeric(l, l', 8);
    LexIsNumeric(u, u', 8);
    LexAppend(BigEndian(e, 8) + BigEndian(l, 8), BigEndian(e', 8) + BigEndian(l', 8), BigEndian(u, 8), BigEndian(u', 8));
    LexAppend(BigEndian(e, 8), BigEndian(e', 8), BigEndian(l, 8), BigEndian(l', 8));
    ConcatInjective(BigEndian(e, 8), BigEndian(e', 8), BigEndian(l, 8), BigEndian(l', 8));
    EncodingRoundTrip(e, l, u);
    EncodingRoundTrip(e', l', u');
  }
}
