/** QUIC's variable-length integers (section 16 of RFC 9000). */
module Varint {
  import opened Bits

  const LIMIT: nat := 0x4000_0000_0000_0000

  type uint64 = x: int | 0 <= x < 0x1_0000_0000_0000_0000

  function Pow256(n: nat): (p: nat)
    ensures p >= 1
  {
    if n == 0 then 1 else Pow256(n - 1) * 0x100
  }

  /** The n low bytes of v, big-endian. */
  function Digits(v: nat, n: nat): (b: seq<byte>)
    ensures |b| == n
  {
    if n == 0 then [] else Digits(v / 0x100, n - 1) + [v % 0x100]
  }

  /** The bytes v takes. */
  function Width(v: uint64): (n: nat)
    ensures n in {1, 2, 4, 8}
  {
    if v <= 63 then 1 else if v <= 16383 then 2 else if v <= 1073741823 then 4 else 8
  }

  /** The mark of width n, in the two high bits of the first byte. */
  function Mark(n: nat): nat {
    if n == 1 then 0 else if n == 2 then 0x4000 else if n == 4 then 0x8000_0000 else 0xc000_0000_0000_0000
  }

  /** The low 62 bits. */
  function Low(v: nat): (r: nat)
    ensures r < LIMIT && (v < LIMIT ==> r == v)
  {
    if v < LIMIT then v else Low(v - LIMIT)
  }

  lemma {:induction false} LowIs(v: nat)
    ensures Low(v) == v % LIMIT
  {
    if v >= LIMIT {
      LowIs(v - LIMIT);
    }
  }

  /** From 2^62 on the mark swallows the value's own high bits. */
  function Encode(v: uint64): (b: seq<byte>)
    ensures |b| == Width(v)
  {
    Digits(Low(v) + Mark(Width(v)), Width(v))
  }

  function SizeOf(first: byte): (n: nat)
    ensures n in {1, 2, 4, 8}
  {
    if first < 0x40 then 1 else if first < 0x80 then 2 else if first < 0xc0 then 4 else 8
  }

  /** acc followed by the bytes of b, big-endian. */
  function Shifted(acc: nat, b: seq<byte>): nat
    decreases |b|
  {
    if b == [] then acc else Shifted(acc, b[..|b| - 1]) * 0x100 + b[|b| - 1]
  }

  /** A value and the bytes it took; no bytes when b is too short. */
  function Decode(b: seq<byte>): (r: (nat, nat))
    ensures r.1 <= |b|
  {
    if b == [] || |b| < SizeOf(b[0]) then (0, 0)
    else (Shifted(b[0] % 0x40, b[1..SizeOf(b[0])]), SizeOf(b[0]))
  }

  method Read(b: seq<byte>) returns (val: nat, n: nat)
    ensures (val, n) == Decode(b)
  {
    if |b| == 0 {
      return 0, 0;
    }
    var size := SizeOf(b[0]);
    if |b| < size {
      return 0, 0;
    }
    val := b[0] % 0x40;
    for i := 1 to size
      invariant val == Shifted(b[0] % 0x40, b[1..i])
    {
      assert b[1..i + 1][..i - 1] == b[1..i];
      val := val * 0x100 + b[i];
    }
    n := size;
  }

  /** n digits shift in as a block. */
  lemma {:induction false} ShiftedDigits(acc: nat, v: nat, n: nat)
    requires v < Pow256(n)
    ensures Shifted(acc, Digits(v, n)) == acc * Pow256(n) + v
    decreases n
  {
    if n > 0 {
      ShiftedDigits(acc, v / 0x100, n - 1);
      var d := Digits(v, n);
      assert d[..n - 1] == Digits(v / 0x100, n - 1);
      assert Pow256(n) == Pow256(n - 1) * 0x100;
      ShiftOne(acc, Pow256(n - 1), v);
    }
  }

  lemma ShiftOne(acc: nat, p: nat, v: nat)
    ensures (acc * p + v / 0x100) * 0x100 + v % 0x100 == acc * (p * 0x100) + v
  {
  }

  /** The first of n + 1 digits and the rest. */
  lemma {:induction false} FirstDigit(v: nat, q: byte, r: nat, n: nat)
    requires r < Pow256(n) && v == q * Pow256(n) + r
    ensures Digits(v, n + 1) == [q] + Digits(r, n)
    decreases n
  {
    if n == 0 {
      assert v == q && Digits(v / 0x100, 0) == [];
    } else {
      var p := Pow256(n - 1);
      assert q * Pow256(n) == q * p * 0x100;
      assert v / 0x100 == q * p + r / 0x100 && v % 0x100 == r % 0x100;
      FirstDigit(v / 0x100, q, r / 0x100, n - 1);
    }
  }

  lemma DecodePrefix(e: seq<byte>, rest: seq<byte>)
    requires |e| >= 1 && |e| == SizeOf(e[0])
    ensures Decode(e + rest) == (Shifted(e[0] % 0x40, e[1..]), |e|)
  {
    assert (e + rest)[1..|e|] == e[1..];
  }

  lemma MarkedFirst(first: byte, q: byte, mark: byte)
    requires q < 0x40 && mark in {0, 0x40, 0x80, 0xc0} && first == mark + q
    ensures first % 0x40 == q && SizeOf(first) == SizeOf(mark)
  {
  }

  lemma DecodeDigits(first: byte, r: nat, n: nat, rest: seq<byte>)
    requires r < Pow256(n) && SizeOf(first) == n + 1
    ensures Decode([first] + Digits(r, n) + rest) == (first % 0x40 * Pow256(n) + r, n + 1)
  {
    var e := [first] + Digits(r, n);
    assert e[1..] == Digits(r, n);
    ShiftedDigits(first % 0x40, r, n);
    DecodePrefix(e, rest);
  }

  lemma {:induction false} DivideBelow(w: nat, p: nat, k: nat) returns (q: nat, r: nat)
    requires w < k * p
    ensures q < k && r < p && w == q * p + r
    decreases k
  {
    if w < p {
      q, r := 0, w;
    } else {
      assert w - p < (k - 1) * p;
      q, r := DivideBelow(w - p, p, k - 1);
      assert (q + 1) * p == q * p + p;
      q := q + 1;
    }
  }

  /** n + 1 digits of value, whose first carries the length mark and the high bits of w. */
  lemma MarkedRoundTrip(value: nat, w: nat, mark: byte, n: nat, unit: nat, rest: seq<byte>)
    requires mark in {0, 0x40, 0x80, 0xc0} && SizeOf(mark) == n + 1
    requires unit == Pow256(n) && w < 0x40 * unit && value == mark * unit + w
    ensures Decode(Digits(value, n + 1) + rest) == (w, n + 1)
  {
    var q, r := DivideBelow(w, unit, 0x40);
    Marked(w, q, r, mark, n, rest);
  }

  lemma Marked(w: nat, q: byte, r: nat, mark: byte, n: nat, rest: seq<byte>)
    requires mark in {0, 0x40, 0x80, 0xc0} && SizeOf(mark) == n + 1
    requires q < 0x40 && r < Pow256(n) && w == q * Pow256(n) + r
    ensures Decode(Digits(mark * Pow256(n) + w, n + 1) + rest) == (w, n + 1)
  {
    hide *;
    MarkedFirst(mark + q, q, mark);
    Leading(mark, q, r, w, Pow256(n));
    FirstAndRest(mark * Pow256(n) + w, mark + q, r, n, rest);
  }

  lemma FirstAndRest(v: nat, first: byte, r: nat, n: nat, rest: seq<byte>)
    requires r < Pow256(n) && v == first * Pow256(n) + r && SizeOf(first) == n + 1
    ensures Decode(Digits(v, n + 1) + rest) == (first % 0x40 * Pow256(n) + r, n + 1)
  {
    hide *;
    FirstDigit(v, first, r, n);
    DecodeDigits(first, r, n, rest);
  }

  lemma Leading(mark: nat, q: nat, r: nat, w: nat, p: nat)
    requires w == q * p + r
    ensures mark * p + w == (mark + q) * p + r
  {
  }

  lemma Units()
    ensures Pow256(0) == 1 && Pow256(1) == 0x100 && Pow256(3) == 0x100_0000 && Pow256(7) == 0x100_0000_0000_0000
  {
    assert Pow256(2) == 0x1_0000;
    assert Pow256(4) == 0x1_0000_0000;
    assert Pow256(6) == 0x1_0000_0000_0000;
  }

  lemma Sized(v: nat, n: nat, rest: seq<byte>)
    requires n in {1, 2, 4, 8}
    requires v < if n == 1 then 0x40 else if n == 2 then 0x4000 else if n == 4 then 0x4000_0000 else LIMIT
    ensures Decode(Digits(v + Mark(n), n) + rest) == (v, n)
  {
    Units();
    var mark: byte := if n == 1 then 0 else if n == 2 then 0x40 else if n == 4 then 0x80 else 0xc0;
    var unit := if n == 1 then 1 else if n == 2 then 0x100 else if n == 4 then 0x100_0000 else 0x100_0000_0000_0000;
    assert Mark(n) == mark * unit;
    MarkedRoundTrip(v + Mark(n), v, mark, n - 1, unit, rest);
  }

  /** Reading back what was written, whatever follows it: the value modulo 2^62. */
  lemma RoundTrip(v: uint64, rest: seq<byte>)
    ensures Decode(Encode(v) + rest) == (Low(v), Width(v)) && Low(v) == v % LIMIT
  {
    LowIs(v);
    Sized(Low(v), Width(v), rest);
  }

  /** So the value itself comes back exactly when it is below 2^62. */
  lemma ExactBelowLimit(v: uint64, rest: seq<byte>)
    ensures Decode(Encode(v) + rest).0 == v <==> v < LIMIT
  {
    RoundTrip(v, rest);
  }

  /** The examples of section A.1 of RFC 9000. */
  lemma ExampleEight()
    ensures Decode([0xc2, 0x19, 0x7c, 0x5e, 0xff, 0x14, 0xe8, 0x8c]) == (151_288_809_941_952_652, 8)
  {
    assert [0xc2, 0x19, 0x7c, 0x5e, 0xff, 0x14, 0xe8, 0x8c][1..8] == [0x19, 0x7c, 0x5e, 0xff, 0x14, 0xe8] + [0x8c];
    hide Shifted;
    Shift3(2, 0x19, 0x7c, 0x5e);
    Shift3(Shifted(2, [0x19, 0x7c, 0x5e]), 0xff, 0x14, 0xe8);
    ShiftConcat(2, [0x19, 0x7c, 0x5e], [0xff, 0x14, 0xe8]);
    assert [0x19, 0x7c, 0x5e] + [0xff, 0x14, 0xe8] == [0x19, 0x7c, 0x5e, 0xff, 0x14, 0xe8];
    ShiftMore(2, [0x19, 0x7c, 0x5e, 0xff, 0x14, 0xe8], 0x8c);
  }

  lemma ExampleFour()
    ensures Decode([0x9d, 0x7f, 0x3e, 0x7d]) == (494_878_333, 4)
  {
    assert [0x9d, 0x7f, 0x3e, 0x7d][1..4] == [0x7f, 0x3e, 0x7d];
    hide Shifted;
    Shift3(0x1d, 0x7f, 0x3e, 0x7d);
  }

  lemma ExamplesShort()
    ensures Decode([0x7b, 0xbd]) == (15_293, 2) && Decode([0x25]) == (37, 1) && Decode([0x40, 0x25]) == (37, 2)
  {
    assert [0x7b, 0xbd][1..2] == [] + [0xbd] && [0x40, 0x25][1..2] == [] + [0x25] && [0x25][1..1] == [];
    hide Shifted;
    ShiftMore(0x3b, [], 0xbd);
    ShiftMore(0, [], 0x25);
    ShiftMore(0x25, [], 0);
  }

  lemma {:induction false} ShiftConcat(acc: nat, a: seq<byte>, b: seq<byte>)
    ensures Shifted(acc, a + b) == Shifted(Shifted(acc, a), b)
    decreases |b|
  {
    if b == [] {
      assert a + b == a;
    } else {
      assert (a + b)[..|a + b| - 1] == a + b[..|b| - 1];
      ShiftConcat(acc, a, b[..|b| - 1]);
    }
  }

  lemma ShiftMore(acc: nat, b: seq<byte>, x: byte)
    ensures Shifted(acc, b + [x]) == Shifted(acc, b) * 0x100 + x && Shifted(acc, []) == acc
  {
    assert (b + [x])[..|b|] == b;
  }

  lemma Shift3(acc: nat, x: byte, y: byte, z: byte)
    ensures Shifted(acc, [x, y, z]) == ((acc * 0x100 + x) * 0x100 + y) * 0x100 + z
  {
    ShiftMore(acc, [], x);
    ShiftMore(acc, [x], y);
    ShiftMore(acc, [x, y], z);
    assert [] + [x] == [x] && [x] + [y] == [x, y] && [x, y] + [z] == [x, y, z];
  }
}
