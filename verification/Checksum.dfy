/**
  The Internet checksum (section 1 of RFC 1071) as the sender computes it: 16-bit words
  are added into a 32-bit accumulator, the carries are folded back in, and the complement
  is stored. The accumulator wraps at 2^32, and the model wraps with it.
  */
module Checksum {
  import opened Bits

  const ACCUMULATOR: nat := 0x1_0000_0000
  /** The longest buffer whose word sum always fits the 32-bit accumulator. */
  const SAFE_LENGTH: nat := 131074

  /** Exact sum of the big-endian words of b from index i on; an odd last byte is padded with a zero. */
  function SumFrom(b: seq<byte>, i: nat): nat
    decreases |b| - i
  {
    if i >= |b| then 0
    else if i + 1 == |b| then Word(b[i], 0)
    else Word(b[i], b[i + 1]) + SumFrom(b, i + 2)
  }

  function WordSum(b: seq<byte>): nat {
    SumFrom(b, 0)
  }

  /** The words from i on, when an even number of bytes stands before them and a last odd byte has a zero behind it. */
  lemma {:induction false} OddPadded(b: seq<byte>, i: nat)
    requires |b| % 2 == 1 && i % 2 == 0
    ensures SumFrom(b + [0], i) == SumFrom(b, i)
    decreases |b| - i
  {
    if i + 1 < |b| {
      OddPadded(b, i + 2);
    }
  }

  /** What is left after every carry above bit 15 has been added back. */
  function Fold(sum: nat): (r: nat)
    ensures r < 0x1_0000
  {
    if sum < 0x1_0000 then sum else Fold(sum % 0x1_0000 + sum / 0x1_0000)
  }

  /** One's-complement sum of words adding up to sum: 65535 is cast out, and is the nonzero form of zero. */
  function OnesSum(sum: nat): (r: nat)
    ensures r <= 0xffff
  {
    if sum <= 0xffff then sum else OnesSum(sum - 0xffff)
  }

  /** Value stored in a checksum field, for words whose exact sum is sum. */
  function Complement(sum: nat): uint16 {
    0xffff - OnesSum(sum)
  }

  /** What a receiver accepts: everything including the field adds up to minus zero. */
  predicate Verifies(b: seq<byte>) {
    OnesSum(WordSum(b)) == 0xffff
  }

  lemma {:induction false} OnesSumIs(sum: nat)
    ensures OnesSum(sum) == if sum == 0 then 0 else (sum - 1) % 0xffff + 1
  {
    if sum > 0xffff {
      OnesSumIs(sum - 0xffff);
      ModShift(sum - 1 - 0xffff, 0xffff, 1);
    }
  }

  lemma {:induction false} FoldIsOnesSum(sum: nat)
    ensures Fold(sum) == OnesSum(sum)
  {
    if sum >= 0x1_0000 {
      var next := sum % 0x1_0000 + sum / 0x1_0000;
      FoldIsOnesSum(next);
      assert sum == next + 0xffff * (sum / 0x1_0000);
      OnesSumIs(sum);
      OnesSumIs(next);
      ModShift(next - 1, 0xffff, sum / 0x1_0000);
    }
  }

  lemma ModShift(x: nat, m: nat, k: nat)
    requires m > 0
    ensures (x + m * k) % m == x % m
  {
    var q, r := x / m, x % m;
    assert m * (q + k) == m * q + m * k;
    QuotientUnique(x + m * k, m, q + k, r);
  }

  /** Adding f brings the sum to minus zero exactly when f complements it modulo 65535. */
  lemma VerifiesWhen(sum: nat, f: uint16)
    ensures OnesSum(sum + f) == 0xffff <==> sum + f > 0 && (sum + f) % 0xffff == 0
  {
    OnesSumIs(sum + f);
  }

  lemma {:induction false} SumFromBound(b: seq<byte>, i: nat)
    requires i <= |b|
    ensures SumFrom(b, i) <= (|b| - i + 1) / 2 * 0xffff
    decreases |b| - i
  {
    if i + 1 < |b| {
      SumFromBound(b, i + 2);
    }
  }

  lemma {:induction false} SumFromSuffix(a: seq<byte>, b: seq<byte>, i: nat)
    requires i <= |b|
    ensures SumFrom(a + b, |a| + i) == SumFrom(b, i)
    decreases |b| - i
  {
    if i + 1 < |b| {
      SumFromSuffix(a, b, i + 2);
    }
  }

  lemma {:induction false} SumFromConcat(a: seq<byte>, b: seq<byte>, i: nat)
    requires i <= |a| && (|a| - i) % 2 == 0
    ensures SumFrom(a + b, i) == SumFrom(a, i) + SumFrom(b, 0)
    decreases |a| - i
  {
    if i == |a| {
      SumFromSuffix(a, b, 0);
    } else {
      SumFromConcat(a, b, i + 2);
    }
  }

  lemma WordSumConcat(a: seq<byte>, b: seq<byte>)
    requires |a| % 2 == 0
    ensures WordSum(a + b) == WordSum(a) + WordSum(b)
  {
    SumFromConcat(a, b, 0);
  }

  /** The sum of everything around a two-byte field; the field itself counts as zero. */
  function AroundSum(head: seq<byte>, tail: seq<byte>): nat {
    WordSum(head) + WordSum(tail)
  }

  /** Two bytes at an even offset contribute their own word and nothing else. */
  lemma ChunkSum(head: seq<byte>, mid: seq<byte>, tail: seq<byte>)
    requires |head| % 2 == 0 && |mid| == 2
    ensures WordSum(head + mid + tail) == AroundSum(head, tail) + Get16(mid)
  {
    WordSumConcat(head, mid);
    WordSumConcat(head + mid, tail);
    assert SumFrom(mid, 2) == 0;
  }

  lemma FieldSum(head: seq<byte>, f: uint16, tail: seq<byte>)
    requires |head| % 2 == 0
    ensures WordSum(head + Put16(f) + tail) == AroundSum(head, tail) + f
  {
    ChunkSum(head, Put16(f), tail);
  }

  /** The checksum a sender writes over a zeroed field. */
  function FilledField(head: seq<byte>, tail: seq<byte>): uint16 {
    Complement(AroundSum(head, tail))
  }

  lemma ZeroedField(head: seq<byte>, zeros: seq<byte>, tail: seq<byte>)
    requires |head| % 2 == 0 && |zeros| == 2 && Get16(zeros) == 0
    ensures Complement(WordSum(head + zeros + tail)) == FilledField(head, tail)
  {
    ChunkSum(head, zeros, tail);
  }

  /** Of all field values the computed one makes the buffer verify, its other form of zero too, unless all is zero. */
  lemma VerifiesExactlyWhen(head: seq<byte>, f: uint16, tail: seq<byte>)
    requires |head| % 2 == 0
    ensures Verifies(head + Put16(f) + tail) <==>
            (f == FilledField(head, tail) || (f in {0, 0xffff} && FilledField(head, tail) in {0, 0xffff}))
            && AroundSum(head, tail) + f > 0
  {
    FieldSum(head, f, tail);
    CompletesExactlyWhen(AroundSum(head, tail), f);
    SameResidue(f, FilledField(head, tail));
  }

  lemma SameResidue(f: uint16, g: uint16)
    ensures f % 0xffff == g % 0xffff <==> f == g || (f in {0, 0xffff} && g in {0, 0xffff})
  {
  }

  lemma CompletesExactlyWhen(s: nat, f: uint16)
    ensures OnesSum(s + f) == 0xffff <==> f % 0xffff == Complement(s) % 0xffff && s + f > 0
  {
    VerifiesWhen(s, f);
    ComplementResidue(s, f);
  }

  lemma ComplementResidue(s: nat, f: uint16)
    ensures s + f > 0 ==> ((s + f) % 0xffff == 0 <==> f % 0xffff == (0xffff - OnesSum(s)) % 0xffff)
  {
    hide OnesSum;
    OnesSumIs(s);
    if s > 0 {
      var r := OnesSum(s);
      assert s == r + 0xffff * ((s - 1) / 0xffff);
      ModShift(f + r, 0xffff, (s - 1) / 0xffff);
      SmallResidue(f, r);
    }
  }

  lemma SmallResidue(f: uint16, r: nat)
    requires 0 < r <= 0xffff
    ensures (f + r) % 0xffff == 0 <==> f % 0xffff == (0xffff - r) % 0xffff
  {
  }

  /** The field the sender computes always verifies. */
  lemma FilledVerifies(head: seq<byte>, tail: seq<byte>)
    requires |head| % 2 == 0
    ensures Verifies(head + Put16(FilledField(head, tail)) + tail)
  {
    VerifiesExactlyWhen(head, FilledField(head, tail), tail);
    ComplementPositive(AroundSum(head, tail));
  }

  /** A sum and its complement are never both zero. */
  lemma ComplementPositive(sum: nat)
    ensures sum + Complement(sum) > 0
  {
  }

  /** UDP writes 0xffff for a computed zero; the receiver cannot tell the two apart. */
  function UdpField(head: seq<byte>, tail: seq<byte>): (f: uint16)
    ensures f != 0
  {
    if FilledField(head, tail) == 0 then 0xffff else FilledField(head, tail)
  }

  lemma UdpVerifies(head: seq<byte>, tail: seq<byte>)
    requires |head| % 2 == 0
    ensures Verifies(head + Put16(UdpField(head, tail)) + tail)
  {
    VerifiesExactlyWhen(head, UdpField(head, tail), tail);
  }

  const DAMAGE: uint16 := 0xbeef
  const SPARE: uint16 := 0x1234

  /** The deliberate damage: flip the bits of mask, and avoid an all-zero field. */
  function Damaged(sum: uint16, mask: uint16): (f: uint16) {
    XorWordBound(sum, mask);
    var flipped := Xor(sum, mask);
    if flipped == 0 then SPARE else flipped
  }

  lemma XorWordBound(a: uint16, b: uint16)
    ensures Xor(a, b) < 0x1_0000
  {
    assert Pow2(16) == 0x1_0000 by { assert Pow2(8) == 0x100 by { assert Pow2(4) == 0x10; } assert Pow2(12) == 0x1000; }
    XorSplit(a, b, 16);
  }

  lemma FlippingDiffers(a: nat, m: nat)
    requires m != 0
    ensures Xor(a, m) != a
    ensures a == 0 ==> Xor(a, m) == m
    ensures Xor(a, m) == 0 ==> a == m
  {
    XorCommutes(a, m);
    XorInvolution(m, a);
    XorInvolution(a, m);
    XorSelf(a);
    XorZero(m);
  }

  lemma DamageDiffers(sum: uint16, mask: uint16)
    requires SPARE < mask < 0xffff
    ensures Damaged(sum, mask) % 0xffff != sum % 0xffff
  {
    XorWordBound(sum, mask);
    FlippingDiffers(sum, mask);
  }

  /** A segment carrying the damaged sum is rejected whatever it contains. */
  lemma BrokenNeverVerifies(head: seq<byte>, tail: seq<byte>)
    requires |head| % 2 == 0
    ensures !Verifies(head + Put16(Damaged(FilledField(head, tail), DAMAGE)) + tail)
  {
    DamageDiffers(FilledField(head, tail), DAMAGE);
    VerifiesExactlyWhen(head, Damaged(FilledField(head, tail), DAMAGE), tail);
  }

  /** The accumulating loop: the word sum, as far as 32 bits hold it. */
  method Accumulate(b: seq<byte>) returns (sum: uint32)
    ensures sum == WordSum(b) % ACCUMULATOR
  {
    sum := 0;
    ghost var exact: nat := 0;
    var i := 0;
    while i + 1 < |b|
      invariant 0 <= i <= |b|
      invariant exact + SumFrom(b, i) == WordSum(b)
      invariant sum == exact % ACCUMULATOR
    {
      sum, exact := AddWord(sum, exact, Word(b[i], b[i + 1]));
      i := i + 2;
    }
    if i < |b| {
      sum, exact := AddWord(sum, exact, Word(b[i], 0));
    }
  }

  /** One 32-bit addition; exact follows along without wrapping. */
  method AddWord(sum: uint32, ghost exact: nat, word: nat) returns (s: uint32, ghost e: nat)
    requires sum == exact % ACCUMULATOR
    ensures e == exact + word && s == e % ACCUMULATOR
  {
    AddModulo(exact, word);
    s := (sum + word) % ACCUMULATOR;
    e := exact + word;
  }

  /** Up to SAFE_LENGTH bytes nothing wraps and the result is the RFC 1071 checksum. */
  method Compute(b: seq<byte>) returns (c: uint16)
    ensures |b| <= SAFE_LENGTH ==> c == Complement(WordSum(b))
  {
    var sum := Accumulate(b);
    SumFromBound(b, 0);
    c := FoldCarries(sum);
  }

  /** The carry loop: it ends, and what it stores is the complement of the folded sum. */
  method FoldCarries(total: uint32) returns (c: uint16)
    ensures c == Complement(total)
  {
    var sum := total;
    while sum / 0x1_0000 != 0
      invariant Fold(sum) == Fold(total)
      decreases sum
    {
      sum := sum % 0x1_0000 + sum / 0x1_0000;
    }
    FoldIsOnesSum(total);
    c := 0xffff - sum;
  }

  lemma AddModulo(x: nat, y: nat)
    ensures (x % ACCUMULATOR + y) % ACCUMULATOR == (x + y) % ACCUMULATOR
  {
  }

  /** One byte past the bound the accumulator can wrap and lose the sum. */
  lemma WrapsPastSafeLength(b: seq<byte>)
    requires |b| == SAFE_LENGTH + 2 && forall i :: 0 <= i < |b| ==> b[i] == 0xff
    ensures WordSum(b) >= ACCUMULATOR
    ensures Complement(WordSum(b) % ACCUMULATOR) != 0xffff - OnesSum(WordSum(b))
  {
    AllOnes(b, 0);
    OnesSumIs(WordSum(b));
    OnesSumIs(WordSum(b) % ACCUMULATOR);
  }

  lemma {:induction false} AllOnes(b: seq<byte>, i: nat)
    requires i <= |b| && (|b| - i) % 2 == 0 && forall k :: 0 <= k < |b| ==> b[k] == 0xff
    ensures SumFrom(b, i) == (|b| - i) / 2 * 0xffff
    decreases |b| - i
  {
    if i < |b| {
      AllOnes(b, i + 2);
    }
  }

  /** The example of section 3 of RFC 1071. */
  lemma Example()
    ensures WordSum([0x00, 0x01, 0xf2, 0x03, 0xf4, 0xf5, 0xf6, 0xf7]) == 0x2ddf0
    ensures OnesSum(0x2ddf0) == 0xddf2
  {
    var b := [0x00, 0x01, 0xf2, 0x03, 0xf4, 0xf5, 0xf6, 0xf7];
    assert SumFrom(b, 6) == 0xf6f7 && SumFrom(b, 4) == 0xf4f5 + 0xf6f7;
  }
}
