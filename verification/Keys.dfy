/** The 160-bit key space of internal/dht/key.go and its XOR metric. */
module Keys {
  import opened Bytes

  const KEY_BITS := 160
  const KEY_BYTES := 20

  type Key = k: seq<Byte> | |k| == KEY_BYTES witness seq(KEY_BYTES, _ => 0)

  /** Bit `i` of a key; bit 0 is the most significant. */
  predicate Bit(k: Key, i: nat)
    requires i < KEY_BITS
  {
    BitOf(k[i / 8], 7 - i % 8)
  }

  /** The distance key of two keys. */
  function Distance(a: Key, b: Key): Key {
    seq(KEY_BYTES, i requires 0 <= i < KEY_BYTES => XorByte(a[i], b[i]))
  }

  /** The number a key denotes, read as 20 big-endian bytes. */
  function Value(k: Key): nat {
    Leading(k, |k|)
  }

  /** The number the first `n` bytes of a key denote. */
  function Leading(k: Key, n: nat): nat
    requires n <= KEY_BYTES
  {
    if n == 0 then 0 else 256 * Leading(k, n - 1) + k[n - 1]
  }

  /** How far two keys are apart, as a number. */
  function Dist(a: Key, b: Key): nat {
    Value(Distance(a, b))
  }

  // --- order ---------------------------------------------------------------

  lemma {:induction false} SameLeading(a: Key, b: Key, n: nat)
    requires n <= KEY_BYTES && a[..n] == b[..n]
    ensures Leading(a, n) == Leading(b, n)
  {
    if n == 0 {
    } else {
      assert a[..n][..n - 1] == a[..n - 1] && b[..n][..n - 1] == b[..n - 1];
      assert a[n - 1] == a[..n][n - 1] == b[..n][n - 1] == b[n - 1];
      SameLeading(a, b, n - 1);
    }
  }

  lemma {:induction false} OrderPersists(a: Key, b: Key, m: nat, n: nat)
    requires m <= n <= KEY_BYTES && Leading(a, m) < Leading(b, m)
    ensures Leading(a, n) < Leading(b, n)
  {
    if m < n {
      OrderPersists(a, b, m, n - 1);
    }
  }

  /** The first differing byte decides the numeric order. */
  lemma FirstByteDecides(a: Key, b: Key, i: nat)
    requires i < KEY_BYTES && a[..i] == b[..i] && a[i] < b[i]
    ensures Value(a) < Value(b)
  {
    SameLeading(a, b, i);
    OrderPersists(a, b, i + 1, KEY_BYTES);
  }

  /** Bytewise comparison, as a loop over the bytes, is the numeric order of 160-bit values. */
  method Less(k: Key, o: Key) returns (less: bool)
    ensures less <==> Value(k) < Value(o)
  {
    for i := 0 to KEY_BYTES
      invariant k[..i] == o[..i]
    {
      if k[i] != o[i] {
        if k[i] < o[i] {
          FirstByteDecides(k, o, i);
        } else {
          FirstByteDecides(o, k, i);
        }
        return k[i] < o[i];
      }
    }
    assert k[..KEY_BYTES] == k && o[..KEY_BYTES] == o;
    return false;
  }

  lemma {:induction false} FirstDifference(a: Key, b: Key, n: nat) returns (i: nat)
    requires a != b && n <= KEY_BYTES && a[..n] == b[..n]
    ensures i < KEY_BYTES && a[..i] == b[..i] && a[i] != b[i]
    decreases KEY_BYTES - n
  {
    assert n < KEY_BYTES by {
      assert a[..KEY_BYTES] == a && b[..KEY_BYTES] == b;
    }
    if a[n] != b[n] {
      i := n;
    } else {
      assert a[..n + 1] == a[..n] + [a[n]] && b[..n + 1] == b[..n] + [b[n]];
      i := FirstDifference(a, b, n + 1);
    }
  }

  /** Different keys denote different numbers. */
  lemma ValueInjective(a: Key, b: Key)
    requires Value(a) == Value(b)
    ensures a == b
  {
    if a != b {
      var i := FirstDifference(a, b, 0);
      if a[i] < b[i] {
        FirstByteDecides(a, b, i);
      } else {
        FirstByteDecides(b, a, i);
      }
    }
  }

  // --- metric --------------------------------------------------------------

  method Xor(k: Key, o: Key) returns (out: Key)
    ensures out == Distance(k, o)
  {
    var buf: array<Byte> := new Byte[KEY_BYTES](_ => 0);
    for i := 0 to KEY_BYTES
      invariant forall j :: 0 <= j < i ==> buf[j] == XorByte(k[j], o[j])
    {
      buf[i] := XorByte(k[i], o[i]);
    }
    out := buf[..];
  }

  lemma {:induction false} TriangleLeading(a: Key, b: Key, c: Key, n: nat)
    requires n <= KEY_BYTES
    ensures Leading(Distance(a, c), n) <= Leading(Distance(a, b), n) + Leading(Distance(b, c), n)
  {
    if n == 0 {
    } else {
      TriangleLeading(a, b, c, n - 1);
      XorTriangle(a[n - 1], b[n - 1], c[n - 1], 8);
    }
  }

  lemma DistanceDetermines(a: Key, b: Key, c: Key)
    requires Dist(a, b) == Dist(a, c)
    ensures b == c
  {
    ValueInjective(Distance(a, b), Distance(a, c));
    forall i | 0 <= i < KEY_BYTES ensures b[i] == c[i] {
      assert Pow2(8) == 256;
      assert Distance(a, b)[i] == XorByte(a[i], b[i]) && Distance(a, c)[i] == XorByte(a[i], c[i]);
      XorTwice(a[i], b[i], 8);
      XorTwice(a[i], c[i], 8);
    }
  }

  lemma {:induction false} ZeroBytes(x: Key, n: nat)
    requires n <= KEY_BYTES && forall m :: 0 <= m < n ==> x[m] == 0
    ensures Leading(x, n) == 0
  {
    if n == 0 {
    } else {
      ZeroBytes(x, n - 1);
    }
  }

  lemma ZeroDistance(a: Key)
    ensures Dist(a, a) == 0
  {
    forall m | 0 <= m < KEY_BYTES ensures Distance(a, a)[m] == 0 {
      XorSelf(a[m], 8);
    }
    ZeroBytes(Distance(a, a), KEY_BYTES);
  }

  lemma DistanceSymmetric(a: Key, b: Key)
    ensures Distance(a, b) == Distance(b, a)
  {
    forall i | 0 <= i < KEY_BYTES ensures Distance(a, b)[i] == Distance(b, a)[i] {
      XorCommutes(a[i], b[i], 8);
    }
  }

  /** XOR distance is a metric, and the distance from one key determines the other key. */
  lemma Metric(a: Key, b: Key, c: Key)
    ensures Dist(a, b) == 0 <==> a == b
    ensures Dist(a, b) == Dist(b, a)
    ensures Dist(a, c) <= Dist(a, b) + Dist(b, c)
    ensures Dist(a, b) == Dist(a, c) ==> b == c
  {
    DistanceSymmetric(a, b);
    TriangleLeading(a, b, c, KEY_BYTES);
    if Dist(a, b) == Dist(a, c) {
      DistanceDetermines(a, b, c);
    }
    ZeroDistance(a);
    if Dist(a, b) == 0 {
      DistanceDetermines(a, b, a);
    }
  }

  // --- common prefixes -----------------------------------------------------

  /** The keys agree on exactly the first `p` bits. */
  ghost predicate SharesExactly(a: Key, b: Key, p: nat) {
    && p <= KEY_BITS
    && (forall i :: 0 <= i < p ==> Bit(a, i) == Bit(b, i))
    && (p < KEY_BITS ==> Bit(a, p) != Bit(b, p))
  }

  /** How many leading bits two keys share. */
  function PrefixLen(a: Key, b: Key): (p: nat)
    ensures SharesExactly(a, b, p)
  {
    PrefixLenFrom(a, b, 8 * |a|)
  }

  function PrefixLenFrom(a: Key, b: Key, left: nat): (p: nat)
    requires left <= KEY_BITS && forall i :: 0 <= i < KEY_BITS - left ==> Bit(a, i) == Bit(b, i)
    ensures SharesExactly(a, b, p)
  {
    if left == 0 || Bit(a, KEY_BITS - left) != Bit(b, KEY_BITS - left) then KEY_BITS - left
    else PrefixLenFrom(a, b, left - 1)
  }

  lemma SharesExactlyUnique(a: Key, b: Key, p: nat, q: nat)
    requires SharesExactly(a, b, p) && SharesExactly(a, b, q)
    ensures p == q
  {
  }

  lemma DistanceBit(a: Key, b: Key, i: nat)
    requires i < KEY_BITS
    ensures Bit(Distance(a, b), i) == (Bit(a, i) != Bit(b, i))
  {
    XorBit(a[i / 8], b[i / 8], 8, 7 - i % 8);
  }

  /** The loop that counts the leading zero bits of the XOR. */
  method CommonPrefixLen(k: Key, o: Key) returns (shared: nat)
    ensures SharesExactly(k, o, shared) && shared == PrefixLen(k, o)
  {
    var x := Xor(k, o);
    shared := 0;
    for i := 0 to KEY_BITS
      invariant shared == i
      invariant forall j :: 0 <= j < i ==> Bit(k, j) == Bit(o, j)
    {
      DistanceBit(k, o, i);
      if Bit(x, i) {
        SharesExactlyUnique(k, o, shared, PrefixLen(k, o));
        return;
      }
      shared := shared + 1;
    }
    SharesExactlyUnique(k, o, shared, PrefixLen(k, o));
  }

  /** Bits of byte `m`, read from the least significant one, are bits of the key. */
  lemma ByteBits(x: Key, m: nat, j: nat)
    requires m < KEY_BYTES && j < 8
    ensures 8 * m + 7 - j < KEY_BITS && BitOf(x[m], j) == Bit(x, 8 * m + 7 - j)
  {
    assert (8 * m + 7 - j) / 8 == m && (8 * m + 7 - j) % 8 == 7 - j;
  }

  /** Two keys that agree on the first `p` bits agree on the whole bytes before them. */
  lemma AgreeingBytes(x: Key, y: Key, p: nat)
    requires p <= KEY_BITS && forall i :: 0 <= i < p ==> Bit(x, i) == Bit(y, i)
    ensures x[..p / 8] == y[..p / 8]
  {
    forall m | 0 <= m < p / 8 ensures x[m] == y[m] {
      forall j | 0 <= j < 8 ensures BitOf(x[m], j) == BitOf(y[m], j) {
        ByteBits(x, m, j);
        ByteBits(y, m, j);
      }
      assert Pow2(8) == 256;
      SameBits(x[m], y[m], 8);
    }
  }

  /** The first differing bit decides the numeric order. */
  lemma FirstBitDecides(x: Key, y: Key, p: nat)
    requires SharesExactly(x, y, p) && p < KEY_BITS && Bit(y, p)
    ensures Value(x) < Value(y)
  {
    AgreeingBytes(x, y, p);
    var n := p / 8;
    forall j | 7 - p % 8 < j < 8 ensures BitOf(x[n], j) == BitOf(y[n], j) {
      ByteBits(x, n, j);
      ByteBits(y, n, j);
    }
    assert Pow2(8) == 256;
    HighestBitDecides(x[n], y[n], 8, 7 - p % 8);
    FirstByteDecides(x, y, n);
  }

  /** Sharing a longer prefix with a key means being strictly closer to it. */
  lemma LongerPrefixIsCloser(t: Key, a: Key, b: Key)
    requires PrefixLen(t, b) < PrefixLen(t, a)
    ensures Dist(t, a) < Dist(t, b)
  {
    var p := PrefixLen(t, b);
    forall i | 0 <= i <= p ensures Bit(Distance(t, a), i) == false && Bit(Distance(t, b), i) == (i == p) {
      DistanceBit(t, a, i);
      DistanceBit(t, b, i);
    }
    FirstBitDecides(Distance(t, a), Distance(t, b), p);
  }

  /** Only the key itself shares all 160 bits. */
  lemma FullPrefixIsSelf(a: Key, b: Key)
    ensures PrefixLen(a, b) == 160 <==> a == b
  {
    if PrefixLen(a, b) == KEY_BITS {
      AgreeingBytes(a, b, KEY_BITS);
      assert a[..KEY_BYTES] == a && b[..KEY_BYTES] == b;
    }
  }
}
