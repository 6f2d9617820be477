/** Bytes, machine words as bounded integers, and the bit operations the components apply to them. */
module Bytes {

  type Byte = b: int | 0 <= b < 256

  /** 2 to the power `w`: one past the largest word of `w` bits. */
  function Pow2(w: nat): (p: nat)
    ensures p > 0
  {
    if w == 0 then 1 else 2 * Pow2(w - 1)
  }

  /** Bit `j` of a word, bit 0 being the least significant. */
  predicate BitOf(a: nat, j: nat) {
    if j == 0 then a % 2 == 1 else BitOf(a / 2, j - 1)
  }

  /** The exclusive or of two `w`-bit words. */
  function Xor(a: nat, b: nat, w: nat): (r: nat)
    ensures r < Pow2(w)
  {
    if w == 0 then 0 else 2 * Xor(a / 2, b / 2, w - 1) + if BitOf(a, 0) == BitOf(b, 0) then 0 else 1
  }

  lemma {:induction false} XorBit(a: nat, b: nat, w: nat, j: nat)
    requires j < w
    ensures BitOf(Xor(a, b, w), j) == (BitOf(a, j) != BitOf(b, j))
  {
    var x := Xor(a / 2, b / 2, w - 1);
    assert Xor(a, b, w) / 2 == x;
    if j == 0 {
    } else {
      assert BitOf(Xor(a, b, w), j) == BitOf(x, j - 1);
      XorBit(a / 2, b / 2, w - 1, j - 1);
    }
  }

  lemma {:induction false} XorCommutes(a: nat, b: nat, w: nat)
    ensures Xor(a, b, w) == Xor(b, a, w)
  {
    if w == 0 {
    } else {
      XorCommutes(a / 2, b / 2, w - 1);
    }
  }

  /** Applying the same mask twice restores the word. */
  lemma {:induction false} XorTwice(a: nat, b: nat, w: nat)
    requires b < Pow2(w)
    ensures Xor(a, Xor(a, b, w), w) == b
  {
    if w == 0 {
    } else {
      XorTwice(a / 2, b / 2, w - 1);
      assert Xor(a, b, w) / 2 == Xor(a / 2, b / 2, w - 1);
    }
  }

  lemma {:induction false} XorSelf(a: nat, w: nat)
    ensures Xor(a, a, w) == 0
  {
    if w == 0 {
    } else {
      XorSelf(a / 2, w - 1);
    }
  }

  lemma {:induction false} XorTriangle(a: nat, b: nat, c: nat, w: nat)
    ensures Xor(a, c, w) <= Xor(a, b, w) + Xor(b, c, w)
  {
    if w == 0 {
    } else {
      XorTriangle(a / 2, b / 2, c / 2, w - 1);
    }
  }

  function XorByte(x: Byte, y: Byte): Byte {
    assert Pow2(8) == 256;
    Xor(x, y, 8)
  }

  /** A word moved up by `k` bits. */
  function ShiftLeft(a: nat, k: nat): nat
    decreases k
  {
    if k == 0 then a else 2 * ShiftLeft(a, k - 1)
  }

  /** The low `k` bits of two words are combined apart from the rest. */
  lemma {:induction false} XorSplit(a: nat, b: nat, c: nat, d: nat, w: nat, k: nat)
    requires b < Pow2(k) && d < Pow2(k)
    ensures Xor(ShiftLeft(a, k) + b, ShiftLeft(c, k) + d, w + k) == ShiftLeft(Xor(a, c, w), k) + Xor(b, d, k)
  {
    if k == 0 {
    } else {
      XorSplit(a, b / 2, c, d / 2, w, k - 1);
      XorStep(ShiftLeft(a, k - 1), b, ShiftLeft(c, k - 1), d, w + k, ShiftLeft(Xor(a, c, w), k - 1), k);
    }
  }

  lemma XorStep(ah: nat, b: nat, ch: nat, d: nat, w: nat, high: nat, k: nat)
    requires 0 < k <= w && Xor(ah + b / 2, ch + d / 2, w - 1) == high + Xor(b / 2, d / 2, k - 1)
    ensures Xor(2 * ah + b, 2 * ch + d, w) == 2 * high + Xor(b, d, k)
  {
    var x, y := 2 * ah + b, 2 * ch + d;
    assert x / 2 == ah + b / 2 && y / 2 == ch + d / 2;
    assert x % 2 == b % 2 && y % 2 == d % 2;
  }

  lemma ShiftLeftByte(a: nat)
    ensures ShiftLeft(a, 8) == 256 * a
  {
    assert ShiftLeft(a, 4) == 16 * a;
  }

  lemma {:induction false} SameBits(a: nat, b: nat, w: nat)
    requires a < Pow2(w) && b < Pow2(w)
    requires forall i :: 0 <= i < w ==> BitOf(a, i) == BitOf(b, i)
    ensures a == b
  {
    if w == 0 {
    } else {
      assert BitOf(a, 0) == BitOf(b, 0);
      forall i | 0 <= i < w - 1 ensures BitOf(a / 2, i) == BitOf(b / 2, i) {
        assert BitOf(a, i + 1) == BitOf(b, i + 1);
      }
      SameBits(a / 2, b / 2, w - 1);
    }
  }

  /** The highest differing bit decides the order of two words. */
  lemma {:induction false} HighestBitDecides(a: nat, b: nat, w: nat, j: nat)
    requires a < Pow2(w) && b < Pow2(w) && j < w
    requires !BitOf(a, j) && BitOf(b, j)
    requires forall i :: j < i < w ==> BitOf(a, i) == BitOf(b, i)
    ensures a < b
  {
    forall i | 0 <= i < w - 1 && j <= i ensures BitOf(a / 2, i) == BitOf(b / 2, i) {
      assert BitOf(a, i + 1) == BitOf(b, i + 1);
    }
    if j == 0 {
      SameBits(a / 2, b / 2, w - 1);
    } else {
      HighestBitDecides(a / 2, b / 2, w - 1, j - 1);
    }
  }

  // --- big-endian words ----------------------------------------------------

  /** 256 to the power `w`. */
  function Pow256(w: nat): (p: nat)
    ensures p > 0
  {
    if w == 0 then 1 else 256 * Pow256(w - 1)
  }

  /** The number `bs` denotes, most significant byte first. */
  function Word(bs: seq<Byte>): nat {
    if bs == [] then 0 else 256 * Word(bs[..|bs| - 1]) + bs[|bs| - 1]
  }

  /** The low `w` bytes of `n`, most significant first. */
  function Put(n: nat, w: nat): (bs: seq<Byte>)
    ensures |bs| == w
  {
    if w == 0 then [] else Put(n / 256, w - 1) + [n % 256]
  }

  /** A word that fits its width survives being written and read. */
  lemma {:induction false} WordOfPut(n: nat, w: nat)
    requires n < Pow256(w)
    ensures Word(Put(n, w)) == n
  {
    if w == 0 {
    } else {
      WordOfPut(n / 256, w - 1);
      var bs := Put(n, w);
      assert bs[..w - 1] == Put(n / 256, w - 1);
    }
  }

  lemma {:induction false} PutOfWord(bs: seq<Byte>)
    ensures Put(Word(bs), |bs|) == bs && Word(bs) < Pow256(|bs|)
  {
    if bs == [] {
    } else {
      PutOfWord(bs[..|bs| - 1]);
    }
  }

  type Word16 = n: int | 0 <= n < 65536

  function Put16(n: nat): seq<Byte> {
    [n / 256 % 256, n % 256]
  }

  /** The 16-bit word at an offset. */
  function Get16(bs: seq<Byte>, at: nat): Word16
    requires at + 2 <= |bs|
  {
    var high: nat := bs[at];
    256 * high + bs[at + 1]
  }

  /** The first twelve bytes of an IPv4 address in its 16-byte form. */
  const V4_IN_V6: seq<Byte> := [0, 0, 0, 0, 0, 0, 0, 0, 0, 0, 255, 255]
}
