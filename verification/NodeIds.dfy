/** 160-bit node ids: the bits the tables split on, the length of a common prefix and the
    XOR metric. The Go and the Rust program each compute prefix lengths with a byte loop;
    both loops are proved against one definition over single bits. */
module NodeIds {

  type NodeId = s: seq<bv8> | |s| == 20 witness seq(20, _ => 0)

  const ID_BITS: nat := 160

  // ------------------------------------------------------------------ bits

  predicate BitOf(b: bv8, k: nat)
    requires k < 8
  {
    b & ((1 as bv8) << (7 - k)) != 0
  }

  /** Bit 0 is the most significant bit of byte 0. */
  predicate IsBitSet(n: NodeId, index: nat)
    requires index < ID_BITS
  {
    BitOf(n[index / 8], index % 8)
  }

  /** The two ids have the same first `count` bits. */
  ghost predicate Agree(a: NodeId, b: NodeId, count: nat)
    requires count <= ID_BITS
  {
    forall i :: 0 <= i < count ==> IsBitSet(a, i) == IsBitSet(b, i)
  }

  function FirstDifferenceFrom(a: NodeId, b: NodeId, i: nat): (p: nat)
    requires i <= ID_BITS
    ensures i <= p <= ID_BITS
    decreases a, ID_BITS - i
  {
    if i == ID_BITS || IsBitSet(a, i) != IsBitSet(b, i) then i else FirstDifferenceFrom(a, b, i + 1)
  }

  /** The index of the first differing bit, 160 for equal ids. */
  function PrefixLength(a: NodeId, b: NodeId): (p: nat)
    ensures p <= ID_BITS
  {
    FirstDifferenceFrom(a, b, 0)
  }

  lemma {:induction false} FirstDifference(a: NodeId, b: NodeId, i: nat)
    requires i <= ID_BITS
    ensures var p := FirstDifferenceFrom(a, b, i);
            && (forall j :: i <= j < p ==> IsBitSet(a, j) == IsBitSet(b, j))
            && (p < ID_BITS ==> IsBitSet(a, p) != IsBitSet(b, p))
    decreases ID_BITS - i
  {
    if i < ID_BITS && IsBitSet(a, i) == IsBitSet(b, i) { FirstDifference(a, b, i + 1); }
  }

  /** The prefix length is the one position up to which the ids agree and at which they differ. */
  lemma PrefixLengthUnique(a: NodeId, b: NodeId, p: nat)
    requires p <= ID_BITS
    ensures p == PrefixLength(a, b) <==> Agree(a, b, p) && (p < ID_BITS ==> IsBitSet(a, p) != IsBitSet(b, p))
  {
    FirstDifference(a, b, 0);
    var q := PrefixLength(a, b);
    assert p < q ==> IsBitSet(a, p) == IsBitSet(b, p);
  }

  lemma PrefixSymmetric(a: NodeId, b: NodeId)
    ensures PrefixLength(a, b) == PrefixLength(b, a)
  {
    PrefixLengthUnique(a, b, PrefixLength(a, b));
    PrefixLengthUnique(b, a, PrefixLength(a, b));
  }

  /** Common prefixes form an ultrametric, and since digits are bits, two ids that leave a
      third one at the same position agree for longer with each other. */
  lemma PrefixUltrametric(a: NodeId, b: NodeId, c: NodeId)
    ensures PrefixLength(a, b) < PrefixLength(b, c) ==> PrefixLength(a, c) == PrefixLength(a, b)
    ensures PrefixLength(b, c) < PrefixLength(a, b) ==> PrefixLength(a, c) == PrefixLength(b, c)
    ensures PrefixLength(a, b) == PrefixLength(b, c) < ID_BITS ==> PrefixLength(a, c) > PrefixLength(a, b)
    ensures PrefixLength(a, b) == PrefixLength(b, c) == ID_BITS ==> PrefixLength(a, c) == ID_BITS
  {
    var p, q, r := PrefixLength(a, b), PrefixLength(b, c), PrefixLength(a, c);
    var m := if p < q then p else q;
    PrefixLengthUnique(a, b, p);
    PrefixLengthUnique(b, c, q);
    PrefixLengthUnique(a, c, r);
    assert Agree(a, c, m) by {
      forall i | 0 <= i < m ensures IsBitSet(a, i) == IsBitSet(c, i) {
        assert IsBitSet(a, i) == IsBitSet(b, i) == IsBitSet(c, i);
      }
    }
    if p != q || p == ID_BITS {
      if p < q {
        assert IsBitSet(b, p) == IsBitSet(c, p);
      } else if q < p {
        assert IsBitSet(a, q) == IsBitSet(b, q);
      }
      PrefixLengthUnique(a, c, m);
    } else {
      assert IsBitSet(a, p) == IsBitSet(c, p);
    }
  }

  lemma ByteFromBits(x: bv8, y: bv8)
    requires forall k :: 0 <= k < 8 ==> BitOf(x, k) == BitOf(y, k)
    ensures x == y
  {
    assert BitOf(x, 0) == BitOf(y, 0) && BitOf(x, 1) == BitOf(y, 1) && BitOf(x, 2) == BitOf(y, 2) && BitOf(x, 3) == BitOf(y, 3);
    assert BitOf(x, 4) == BitOf(y, 4) && BitOf(x, 5) == BitOf(y, 5) && BitOf(x, 6) == BitOf(y, 6) && BitOf(x, 7) == BitOf(y, 7);
  }

  /** Only an id itself shares all 160 bits. */
  lemma FullPrefixIsEquality(a: NodeId, b: NodeId)
    ensures PrefixLength(a, b) == ID_BITS <==> a == b
  {
    PrefixLengthUnique(a, b, ID_BITS);
    if PrefixLength(a, b) == ID_BITS {
      forall j | 0 <= j < 20 ensures a[j] == b[j] {
        forall k | 0 <= k < 8 ensures BitOf(a[j], k) == BitOf(b[j], k) {
          assert IsBitSet(a, 8 * j + k) == IsBitSet(b, 8 * j + k);
          assert (8 * j + k) / 8 == j && (8 * j + k) % 8 == k;
        }
        ByteFromBits(a[j], b[j]);
      }
    }
  }

  // ------------------------------------------------------------------ the byte loops

  /** Number of leading zero bits of a byte, as in Go's bits.LeadingZeros8. */
  function LeadingZeros(b: bv8): nat {
    if b >= 0x80 then 0 else if b >= 0x40 then 1 else if b >= 0x20 then 2 else if b >= 0x10 then 3
    else if b >= 0x08 then 4 else if b >= 0x04 then 5 else if b >= 0x02 then 6 else if b >= 0x01 then 7 else 8
  }

  lemma LeadingZerosOfXor(x: bv8, y: bv8)
    ensures LeadingZeros(x ^ y) == 8 <==> x == y
    ensures LeadingZeros(x ^ y) <= 8
    ensures forall k :: 0 <= k < LeadingZeros(x ^ y) ==> BitOf(x, k) == BitOf(y, k)
    ensures LeadingZeros(x ^ y) < 8 ==> BitOf(x, LeadingZeros(x ^ y)) != BitOf(y, LeadingZeros(x ^ y))
  {
  }

  lemma EqualBytesAgree(a: NodeId, b: NodeId, i: nat)
    requires i <= 20 && a[..i] == b[..i]
    ensures Agree(a, b, 8 * i)
  {
    forall k | 0 <= k < 8 * i ensures IsBitSet(a, k) == IsBitSet(b, k) {
      assert a[k / 8] == a[..i][k / 8] == b[..i][k / 8] == b[k / 8];
    }
  }

  lemma FirstDifferenceInByte(a: NodeId, b: NodeId, i: nat, z: nat)
    requires i < 20 && z < 8 && Agree(a, b, 8 * i)
    requires forall k :: 0 <= k < z ==> BitOf(a[i], k) == BitOf(b[i], k)
    requires BitOf(a[i], z) != BitOf(b[i], z)
    ensures PrefixLength(a, b) == 8 * i + z
  {
    assert (8 * i + z) / 8 == i && (8 * i + z) % 8 == z;
    forall k | 0 <= k < 8 * i + z ensures IsBitSet(a, k) == IsBitSet(b, k) {
      if k >= 8 * i { assert k / 8 == i && k % 8 == k - 8 * i; }
    }
    PrefixLengthUnique(a, b, 8 * i + z);
  }

  lemma BytesDecidePrefix(a: NodeId, b: NodeId, i: nat)
    requires i <= 20 && a[..i] == b[..i]
    ensures i == 20 ==> PrefixLength(a, b) == ID_BITS
    ensures i < 20 && a[i] != b[i] ==> PrefixLength(a, b) == 8 * i + LeadingZeros(a[i] ^ b[i])
  {
    if i == 20 {
      FullPrefixIsEquality(a, b);
      assert a == a[..i] && b == b[..i];
    } else if a[i] != b[i] {
      LeadingZerosOfXor(a[i], b[i]);
      EqualBytesAgree(a, b, i);
      FirstDifferenceInByte(a, b, i, LeadingZeros(a[i] ^ b[i]));
    }
  }

  /** The Go loop. */
  method CommonPrefixLength(a: NodeId, b: NodeId) returns (result: nat)
    ensures result == PrefixLength(a, b)
  {
    result := 0;
    var i := 0;
    while i < 20
      invariant 0 <= i <= 20 && result == 8 * i
      invariant a[..i] == b[..i]
    {
      if a[i] != b[i] {
        BytesDecidePrefix(a, b, i);
        result := result + LeadingZeros(a[i] ^ b[i]);
        return;
      }
      result := result + 8;
      i := i + 1;
    }
    BytesDecidePrefix(a, b, 20);
  }

  /** The bytewise exclusive or of two ids. */
  function XorBytes(a: NodeId, b: NodeId): NodeId {
    seq(20, i requires 0 <= i < 20 => a[i] ^ b[i])
  }

  method Distance(a: NodeId, b: NodeId) returns (result: array<bv8>)
    ensures fresh(result) && result[..] == XorBytes(a, b)
  {
    result := new bv8[20](_ => 0);
    for i := 0 to result.Length
      invariant result.Length == 20
      invariant forall j :: 0 <= j < i ==> result[j] == a[j] ^ b[j]
    {
      result[i] := a[i] ^ b[i];
    }
  }

  /** The Rust loop, over the distance bytes. */
  method CommonPrefixLengthByDistance(a: NodeId, b: NodeId) returns (result: nat)
    ensures result == PrefixLength(a, b)
  {
    var distance := Distance(a, b);
    result := 0;
    for i := 0 to 20
      invariant distance[..] == XorBytes(a, b)
      invariant result == 8 * i && a[..i] == b[..i]
    {
      LeadingZerosOfXor(a[i], b[i]);
      var byte := distance[i];
      assert byte == distance[..][i];
      result := result + LeadingZeros(byte);
      if LeadingZeros(byte) < 8 {
        BytesDecidePrefix(a, b, i);
        return;
      }
    }
    BytesDecidePrefix(a, b, 20);
  }

  // ------------------------------------------------------------------ the metric

  function Pow2(n: nat): (r: nat)
    ensures r > 0
  {
    if n == 0 then 1 else 2 * Pow2(n - 1)
  }

  lemma {:induction false} Pow2Monotone(m: nat, n: nat)
    requires m <= n
    ensures Pow2(m) <= Pow2(n)
  {
    if m < n { Pow2Monotone(m, n - 1); }
  }

  lemma Associate(x: nat, y: nat, z: nat)
    ensures x * y * z == x * (y * z)
  {
  }

  lemma {:induction false} Pow2Sum(m: nat, n: nat)
    ensures Pow2(m + n) == Pow2(m) * Pow2(n)
  {
    if m > 0 {
      Pow2Sum(m - 1, n);
      Associate(2, Pow2(m - 1), Pow2(n));
      assert Pow2(m + n) == 2 * Pow2(m - 1 + n);
    }
  }

  function ByteValue(b: bv8): (v: nat)
    ensures v < 256
  {
    b as int
  }

  /** A byte string read as a big-endian number. */
  function BigEndian(s: seq<bv8>): nat {
    if s == [] then 0 else ByteValue(s[0]) * Pow2(8 * (|s| - 1)) + BigEndian(s[1..])
  }

  /** The XOR metric on ids. */
  function XorDistance(a: NodeId, b: NodeId): nat {
    BigEndian(XorBytes(a, b))
  }

  lemma ByteMagnitude(b: bv8)
    ensures b == 0 <==> ByteValue(b) == 0
    ensures b != 0 ==> LeadingZeros(b) < 8 && Pow2(7 - LeadingZeros(b)) <= ByteValue(b) < Pow2(8 - LeadingZeros(b))
    ensures Pow2(8) == 256
  {
    assert Pow2(2) == 4;
    assert Pow2(4) == 16;
    assert Pow2(6) == 64;
    assert Pow2(8) == 256;
  }

  /** lo <= v < hi in the leading digit of weight w, with a rest below w. */
  lemma LeadingDigit(v: nat, lo: nat, hi: nat, w: nat, rest: nat)
    requires lo <= v < hi && rest < w
    ensures lo * w <= v * w + rest < hi * w
  {
    assert lo * w <= v * w;
    assert (v + 1) * w <= hi * w;
  }

  lemma {:induction false} BigEndianBound(s: seq<bv8>)
    ensures BigEndian(s) < Pow2(8 * |s|)
  {
    if s != [] {
      var n := 8 * (|s| - 1);
      BigEndianBound(s[1..]);
      Pow2Sum(8, n);
      ByteMagnitude(s[0]);
      LeadingDigit(ByteValue(s[0]), 0, 256, Pow2(n), BigEndian(s[1..]));
    }
  }

  /** Number of leading zero bits of a byte string. */
  function ZeroBits(s: seq<bv8>): nat {
    if s == [] then 0 else if s[0] != 0 then LeadingZeros(s[0]) else 8 + ZeroBits(s[1..])
  }

  /** The first byte decides if it is not zero. */
  lemma FirstByteMagnitude(s: seq<bv8>)
    requires s != [] && s[0] != 0
    ensures var z := LeadingZeros(s[0]);
            z < 8 && Pow2(8 * |s| - 1 - z) <= BigEndian(s) < Pow2(8 * |s| - z)
  {
    hide LeadingZeros, Pow2;
    var n, z := 8 * (|s| - 1), LeadingZeros(s[0]);
    ByteMagnitude(s[0]);
    BigEndianBound(s[1..]);
    Pow2Sum(7 - z, n);
    Pow2Sum(8 - z, n);
    LeadingDigit(ByteValue(s[0]), Pow2(7 - z), Pow2(8 - z), Pow2(n), BigEndian(s[1..]));
    assert 7 - z + n == 8 * |s| - 1 - z && 8 - z + n == 8 * |s| - z;
  }

  lemma {:induction false} BigEndianMagnitude(s: seq<bv8>)
    ensures ZeroBits(s) <= 8 * |s|
    ensures ZeroBits(s) < 8 * |s| ==> Pow2(8 * |s| - 1 - ZeroBits(s)) <= BigEndian(s) < Pow2(8 * |s| - ZeroBits(s))
    ensures ZeroBits(s) == 8 * |s| ==> BigEndian(s) == 0
  {
    hide Pow2, LeadingZeros, ByteValue;
    if s != [] && s[0] == 0 {
      ByteMagnitude(s[0]);
      BigEndianMagnitude(s[1..]);
    } else if s != [] {
      FirstByteMagnitude(s);
    }
  }

  lemma {:induction false} ZeroBitsOfXor(a: NodeId, b: NodeId, i: nat)
    requires i <= 20 && a[..i] == b[..i]
    ensures 8 * i + ZeroBits(XorBytes(a, b)[i..]) == PrefixLength(a, b)
    decreases 20 - i
  {
    BytesDecidePrefix(a, b, i);
    if i < 20 {
      XorIsZero(a[i], b[i]);
      var x := XorBytes(a, b);
      assert x[i..][0] == x[i] && x[i..][1..] == x[i + 1..];
      if a[i] == b[i] {
        assert a[..i + 1] == b[..i + 1];
        ZeroBitsOfXor(a, b, i + 1);
      }
    }
  }

  lemma XorIsZero(x: bv8, y: bv8)
    ensures x ^ y == 0 <==> x == y
  {
  }

  lemma MagnitudeOfPrefix(a: NodeId, b: NodeId, p: nat)
    requires p == PrefixLength(a, b)
    ensures p < ID_BITS ==> Pow2(ID_BITS - 1 - p) <= XorDistance(a, b) < Pow2(ID_BITS - p)
    ensures p == ID_BITS ==> XorDistance(a, b) == 0
  {
    var x := XorBytes(a, b);
    ZeroBitsOfXor(a, b, 0);
    assert x[0..] == x;
    BigEndianMagnitude(x);
  }

  lemma DistinctMagnitudes(d: nat, m: nat, n: nat)
    requires Pow2(m) <= d < Pow2(m + 1)
    ensures Pow2(n) <= d < Pow2(n + 1) <==> m == n
  {
    if m < n {
      Pow2Monotone(m + 1, n);
    } else if n < m {
      Pow2Monotone(n + 1, m);
    }
  }

  /** A common prefix of p bits is the same thing as an XOR distance in [2^(159-p), 2^(160-p)),
      and only an id itself has distance 0. */
  lemma PrefixIsMagnitude(a: NodeId, b: NodeId, p: nat)
    requires p < ID_BITS
    ensures PrefixLength(a, b) == p <==> Pow2(ID_BITS - 1 - p) <= XorDistance(a, b) < Pow2(ID_BITS - p)
    ensures a == b <==> XorDistance(a, b) == 0
  {
    var q := PrefixLength(a, b);
    FullPrefixIsEquality(a, b);
    MagnitudeOfPrefix(a, b, q);
    if q < ID_BITS {
      DistinctMagnitudes(XorDistance(a, b), ID_BITS - 1 - q, ID_BITS - 1 - p);
    }
  }

  /** A longer common prefix means strictly closer. */
  lemma LongerPrefixIsCloser(t: NodeId, x: NodeId, y: NodeId)
    requires PrefixLength(t, x) > PrefixLength(t, y)
    ensures XorDistance(t, x) < XorDistance(t, y)
  {
    var p, q := PrefixLength(t, x), PrefixLength(t, y);
    MagnitudeOfPrefix(t, x, p);
    MagnitudeOfPrefix(t, y, q);
    if p < ID_BITS {
      Pow2Monotone(ID_BITS - p, ID_BITS - 1 - q);
    }
  }

  // ------------------------------------------------------------------ counting ids

  /** At most 2^(160-k) ids share their first k bits with a given id. */
  lemma {:induction false} PrefixClassSize(own: NodeId, ids: set<NodeId>, k: nat)
    requires k <= ID_BITS
    requires forall x :: x in ids ==> PrefixLength(own, x) >= k
    ensures |ids| <= Pow2(ID_BITS - k)
    decreases ID_BITS - k
  {
    if k == ID_BITS {
      forall x | x in ids ensures x in {own} { FullPrefixIsEquality(own, x); }
      SubsetSize(ids, {own});
      assert |ids| <= 1;
    } else {
      var near := set x | x in ids && PrefixLength(own, x) >= k + 1;
      var far := ids - near;
      PrefixClassSize(own, near, k + 1);
      if far != {} {
        var r :| r in far;
        forall x | x in far ensures PrefixLength(r, x) >= k + 1 {
          SamePositionAgreesLonger(own, r, x, k);
        }
        PrefixClassSize(r, far, k + 1);
      }
      assert ids == near + far;
      assert |ids| == |near| + |far|;
      assert ID_BITS - k == (ID_BITS - (k + 1)) + 1;
    }
  }

  lemma SamePositionAgreesLonger(own: NodeId, r: NodeId, x: NodeId, k: nat)
    requires k < ID_BITS && PrefixLength(own, r) == k == PrefixLength(own, x)
    ensures PrefixLength(r, x) >= k + 1
  {
    PrefixSymmetric(own, r);
    PrefixUltrametric(r, own, x);
  }

  lemma {:induction false} SubsetSize<T>(a: set<T>, b: set<T>)
    requires a <= b
    ensures |a| <= |b|
  {
    if a != {} {
      var x :| x in a;
      SubsetSize(a - {x}, b - {x});
    }
  }
}
