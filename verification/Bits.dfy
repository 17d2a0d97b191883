/** Bytes, big-endian words and bitwise exclusive or, all on unbounded integers. */
module Bits {

  type byte = x: int | 0 <= x < 0x100
  type uint16 = x: int | 0 <= x < 0x1_0000
  type uint32 = x: int | 0 <= x < 0x1_0000_0000

  function Word(hi: int, lo: int): int {
    hi * 0x100 + lo
  }

  /** Conversion to sixteen bits drops the higher ones. */
  function Truncate16(v: nat): (t: uint16)
    ensures v < 0x1_0000 ==> t == v
  {
    if v < 0x1_0000 then v else Truncate16(v - 0x1_0000)
  }

  /** Big-endian 16-bit encoding. */
  function Put16(v: uint16): (b: seq<byte>)
    ensures |b| == 2 && Get16(b) == v
  {
    [v / 0x100, v % 0x100]
  }

  function Get16(b: seq<byte>): (v: uint16)
    requires |b| >= 2
  {
    Word(b[0], b[1])
  }

  /** Big-endian 32-bit encoding: two 16-bit halves. */
  function Put32(v: uint32): (b: seq<byte>)
    ensures |b| == 4 && Get32(b) == v
  {
    Put16(v / 0x1_0000) + Put16(v % 0x1_0000)
  }

  function Get32(b: seq<byte>): (v: uint32)
    requires |b| >= 4
  {
    Word(b[0], b[1]) * 0x1_0000 + Word(b[2], b[3])
  }

  /** Four bytes, the high one first. */
  predicate Holds32(p: seq<byte>, at: nat, v: int)
    requires at + 4 <= |p|
  {
    (p[at] as int) * 0x100_0000 + (p[at + 1] as int) * 0x1_0000 + (p[at + 2] as int) * 0x100 + p[at + 3] == v
  }

  /** Two bytes, the high one first. */
  predicate Holds16(p: seq<byte>, at: nat, v: int)
    requires at + 2 <= |p|
  {
    (p[at] as int) * 0x100 + p[at + 1] == v
  }

  lemma Put16Holds(v: uint16)
    ensures Holds16(Put16(v), 0, v)
  {
  }

  lemma Put32Holds(v: uint32)
    ensures Holds32(Put32(v), 0, v)
  {
  }

  function Zeros(n: nat): (z: seq<byte>)
    ensures |z| == n
    ensures forall i :: 0 <= i < n ==> z[i] == 0
  {
    seq(n, _ => 0)
  }

  function Pow2(k: nat): (p: nat)
    ensures p >= 1
  {
    if k == 0 then 1 else 2 * Pow2(k - 1)
  }

  /** Bitwise exclusive or of two naturals, lowest bit first. */
  function Xor(a: nat, b: nat): nat
    decreases a + b
  {
    if a == 0 && b == 0 then 0 else (a + b) % 2 + 2 * Xor(a / 2, b / 2)
  }

  lemma {:induction false} XorZero(a: nat)
    ensures Xor(a, 0) == a && Xor(0, a) == a
  {
    if a != 0 {
      XorZero(a / 2);
    }
  }

  lemma XorIs(a: nat, b: nat)
    requires a + b > 0
    ensures Xor(a, b) == (a + b) % 2 + 2 * Xor(a / 2, b / 2)
  {
  }

  lemma Halves(bit: nat, rest: nat, x: nat)
    requires bit < 2 && x == bit + 2 * rest
    ensures x % 2 == bit && x / 2 == rest
  {
  }

  lemma XorStep(a: nat, b: nat)
    requires a + b > 0
    ensures Xor(a, b) % 2 == (a + b) % 2 && Xor(a, b) / 2 == Xor(a / 2, b / 2)
  {
    hide Xor;
    XorIs(a, b);
    Halves((a + b) % 2, Xor(a / 2, b / 2), Xor(a, b));
  }

  lemma {:induction false} XorInvolution(a: nat, b: nat)
    ensures Xor(Xor(a, b), b) == a
    decreases a + b
  {
    hide Xor;
    XorZero(a);
    if b != 0 {
      XorInvolution(a / 2, b / 2);
      XorStep(a, b);
      XorStep(Xor(a, b), b);
    }
  }

  lemma {:induction false} XorCommutes(a: nat, b: nat)
    ensures Xor(a, b) == Xor(b, a)
    decreases a + b
  {
    if a != 0 || b != 0 {
      XorCommutes(a / 2, b / 2);
    }
  }

  lemma {:induction false} XorSelf(a: nat)
    ensures Xor(a, a) == 0
  {
    if a != 0 {
      XorSelf(a / 2);
    }
  }

  /** a doubled k times. */
  function Doubled(a: nat, k: nat): nat {
    if k == 0 then a else 2 * Doubled(a, k - 1)
  }

  /** High and low parts go separately: in the end every bit of the result is set exactly when the two bits differ. */
  lemma {:induction false} XorJoin(ah: nat, al: nat, bh: nat, bl: nat, k: nat)
    requires al < Pow2(k) && bl < Pow2(k)
    ensures Xor(Doubled(ah, k) + al, Doubled(bh, k) + bl) == Doubled(Xor(ah, bh), k) + Xor(al, bl)
    decreases k
  {
    if k == 0 {
      assert Xor(0, 0) == 0;
    } else {
      hide Xor;
      XorJoin(ah, al / 2, bh, bl / 2, k - 1);
      XorJoinStep(Doubled(ah, k - 1), al, Doubled(bh, k - 1), bl, Doubled(Xor(ah, bh), k - 1));
    }
  }

  lemma XorJoinStep(a: nat, al: nat, b: nat, bl: nat, x: nat)
    requires Xor(a + al / 2, b + bl / 2) == x + Xor(al / 2, bl / 2)
    ensures Xor(2 * a + al, 2 * b + bl) == 2 * x + Xor(al, bl)
  {
    hide Xor;
    XorHalves(2 * a + al, 2 * b + bl);
    XorHalves(al, bl);
  }

  lemma XorHalves(a: nat, b: nat)
    ensures Xor(a, b) == (a + b) % 2 + 2 * Xor(a / 2, b / 2)
  {
    assert Xor(0, 0) == 0;
  }

  lemma XorNibbles(ah: nat, al: nat, bh: nat, bl: nat)
    requires al < 16 && bl < 16
    ensures Xor(16 * ah + al, 16 * bh + bl) == 16 * Xor(ah, bh) + Xor(al, bl)
  {
    hide Xor, Doubled, Pow2;
    NibbleUp(ah);
    NibbleUp(bh);
    NibbleUp(Xor(ah, bh));
    XorJoin(ah, al, bh, bl, 4);
  }

  lemma NibbleUp(a: nat)
    ensures Doubled(a, 4) == 16 * a && Pow2(4) == 16
  {
    assert Doubled(a, 2) == 2 * Doubled(a, 1) == 4 * a;
    assert Doubled(a, 4) == 2 * Doubled(a, 3);
  }

  lemma ByteUp(a: nat)
    ensures Doubled(a, 8) == 256 * a && Pow2(8) == 256
  {
    assert Pow2(4) == 16;
    assert Doubled(a, 2) == 2 * Doubled(a, 1) == 4 * a;
    assert Doubled(a, 4) == 2 * Doubled(a, 3) == 16 * a;
    assert Doubled(a, 6) == 2 * Doubled(a, 5) == 64 * a;
    assert Doubled(a, 8) == 2 * Doubled(a, 7);
  }

  lemma XorWord(ah: byte, al: byte, bh: byte, bl: byte)
    ensures Xor(Word(ah, al), Word(bh, bl)) == Word(XorByte(ah, bh), XorByte(al, bl))
  {
    hide Xor, Doubled, Pow2;
    ByteUp(ah);
    ByteUp(bh);
    XorJoin(ah, al, bh, bl, 8);
    ByteUp(Xor(ah, bh));
  }

  /** A mask below 2^k keeps the result below 2^k and leaves the higher bits alone. */
  lemma {:induction false} XorSplit(a: nat, m: nat, k: nat)
    requires m < Pow2(k)
    ensures Xor(a, m) / Pow2(k) == a / Pow2(k)
    ensures a < Pow2(k) ==> Xor(a, m) < Pow2(k)
    decreases k
  {
    if k == 0 {
      XorZero(a);
    } else {
      var p := Pow2(k - 1);
      XorSplit(a / 2, m / 2, k - 1);
      var x := Xor(a, m);
      if a == 0 && m == 0 {
      } else {
        assert x / 2 == Xor(a / 2, m / 2);
      }
      HalfThenQuotient(a, p);
      HalfThenQuotient(x, p);
    }
  }

  lemma HalfThenQuotient(a: nat, p: nat)
    requires p >= 1
    ensures a / 2 / p == a / (2 * p)
  {
    var q, r := a / 2 / p, a / 2 % p;
    assert a / 2 == q * p + r;
    assert a == (2 * p) * q + (2 * r + a % 2);
    assert 0 <= 2 * r + a % 2 < 2 * p;
    QuotientUnique(a, 2 * p, q, 2 * r + a % 2);
  }

  lemma QuotientUnique(a: int, d: int, q: int, r: int)
    requires d > 0 && a == d * q + r && 0 <= r < d
    ensures a / d == q && a % d == r
  {
    var q', r' := a / d, a % d;
    var diff := q - q';
    assert d * diff == d * q - d * q' == r' - r;
    if diff >= 1 {
      ProductAtLeast(d, diff);
    } else if diff <= -1 {
      ProductAtLeast(d, -diff);
    }
  }

  lemma ProductAtLeast(d: int, k: int)
    requires d > 0 && k >= 1
    ensures d * k >= d
  {
  }

  function XorByte(a: byte, b: byte): (x: byte)
    ensures x == Xor(a, b)
  {
    assert Pow2(8) == 256 by { assert Pow2(4) == 16; }
    XorSplit(a, b, 8);
    Xor(a, b)
  }

  function XorSeq(a: seq<byte>, m: seq<byte>): (x: seq<byte>)
    requires |a| <= |m|
    ensures |x| == |a|
    ensures forall i :: 0 <= i < |a| ==> x[i] == XorByte(a[i], m[i])
  {
    seq(|a|, i requires 0 <= i < |a| => XorByte(a[i], m[i]))
  }

  lemma XorByteTwice(a: byte, m: byte)
    ensures XorByte(XorByte(a, m), m) == a
  {
    XorInvolution(a, m);
  }

  lemma XorSeqTwice(a: seq<byte>, m: seq<byte>)
    requires |a| <= |m|
    ensures XorSeq(XorSeq(a, m), m) == a
  {
    forall i | 0 <= i < |a|
      ensures XorSeq(XorSeq(a, m), m)[i] == a[i]
    {
      XorByteTwice(a[i], m[i]);
    }
  }
}
