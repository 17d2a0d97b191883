/**
  Packet protection of a QUIC Initial (section 5 of RFC 9001). The cipher and the key
  derivation are parameters; only what they promise to their callers is used.
  */
module QuicProtection {
  import opened Bits
  import Varint
  import opened Options

  type Bytes = seq<byte>

  datatype KeySet = KeySet(key: Bytes, iv: Bytes, hp: Bytes)

  const TAG: nat := 16
  const NONCE: nat := 12
  const SAMPLE: nat := 16

  datatype Suite = Suite(
    derive: (Bytes, uint32) -> (KeySet, KeySet),
    seal: (Bytes, Bytes, Bytes, Bytes) -> Bytes,
    open: (Bytes, Bytes, Bytes, Bytes) -> Option<Bytes>,
    mask: (Bytes, Bytes) -> Bytes)
  {
    /** Sealing adds a tag, opening inverts sealing, masks are a block long, vectors are twelve bytes. */
    ghost predicate Sound() {
      && (forall k, n, p, a :: |seal(k, n, p, a)| == |p| + 16)
      && (forall k, n, p, a :: open(k, n, seal(k, n, p, a), a) == Some(p))
      && (forall h, s :: |mask(h, s)| == 16)
      && (forall d, v :: |derive(d, v).0.iv| == 12 && |derive(d, v).1.iv| == 12)
    }

    /** What authentication adds, as an ideal: nothing opens under another nonce than the one it was sealed under. */
    ghost predicate Separates() {
      forall k, m: Bytes, n: Bytes, p, a :: |m| == |n| == NONCE && m != n ==> open(k, n, seal(k, m, p, a), a) == None
    }
  }

  /** A suite that keeps the nonce in the tag. */
  function Tagging(): Suite {
    Suite(
      (d, v) => (KeySet([], Zeros(NONCE), []), KeySet([], Zeros(NONCE), [])),
      (k, n, p, a) => p + Tag(n),
      (k, n, c, a) => Untagged(n, c),
      (h, s) => Zeros(SAMPLE))
  }

  function Tag(n: Bytes): (t: Bytes)
    ensures |t| == TAG
  {
    if |n| == NONCE then n + Zeros(TAG - NONCE) else Zeros(TAG)
  }

  function Untagged(n: Bytes, c: Bytes): Option<Bytes> {
    if |c| >= TAG && c[|c| - TAG..] == Tag(n) then Some(c[..|c| - TAG]) else None
  }

  /** What is asked of a cipher can be had. */
  lemma SuiteExists()
    ensures Tagging().Sound() && Tagging().Separates()
  {
    forall n: Bytes, p: Bytes
      ensures Untagged(n, p + Tag(n)) == Some(p)
    {
      assert (p + Tag(n))[|p|..] == Tag(n);
    }
    forall m: Bytes, n: Bytes, p: Bytes | |m| == |n| == NONCE && m != n
      ensures Untagged(n, p + Tag(m)) == None
    {
      assert (p + Tag(m))[|p|..] == Tag(m);
      assert Tag(m)[..NONCE] == m && Tag(n)[..NONCE] == n;
    }
  }

  // ------------------------------------------------------------------ exclusive or

  /** Four masked bits leave the upper half of a byte alone. */
  lemma XorLowNibble(a: byte, m: byte)
    requires m < 0x10
    ensures XorByte(a, m) / 0x10 == a / 0x10
  {
    assert Pow2(4) == 0x10;
    XorSplit(a, m, 4);
  }

  // ------------------------------------------------------------------ nonce

  /** The vector with the packet number folded into its last four bytes. */
  function Nonce(iv: Bytes, pn: uint32): (n: Bytes)
    requires |iv| >= 4
    ensures |n| == |iv|
  {
    iv[..|iv| - 4] + XorSeq(iv[|iv| - 4..], Varint.Digits(pn, 4))
  }

  lemma {:induction false} DigitAt(v: nat, n: nat, i: nat)
    requires i < n
    ensures Varint.Digits(v, n)[n - 1 - i] == v / Varint.Pow256(i) % 0x100
    decreases n
  {
    if i > 0 {
      DigitAt(v / 0x100, n - 1, i - 1);
      assert Varint.Digits(v, n)[n - 1 - i] == Varint.Digits(v / 0x100, n - 1)[n - 1 - i];
      DivideTwice(v, Varint.Pow256(i - 1));
    }
  }

  lemma DivideTwice(v: nat, p: nat)
    requires p >= 1
    ensures v / 0x100 / p == v / (p * 0x100)
  {
    var q, r := v / 0x100 / p, v / 0x100 % p;
    assert v / 0x100 == q * p + r;
    assert v == (p * 0x100) * q + (r * 0x100 + v % 0x100);
    QuotientUnique(v, p * 0x100, q, r * 0x100 + v % 0x100);
  }

  /** What each byte of the vector is masked with, lowest byte of the packet number last. */
  lemma NonceBytes(iv: Bytes, pn: uint32) returns (pad: Bytes)
    requires |iv| >= 4
    ensures |pad| == |iv|
    ensures forall k :: 0 <= k < |iv| - 4 ==> Nonce(iv, pn)[k] == iv[k]
    ensures forall k :: |iv| - 4 <= k < |iv| ==> Nonce(iv, pn)[k] == XorByte(iv[k], pad[k])
    ensures forall i :: 0 <= i < 4 ==> pad[|iv| - 1 - i] == pn / Varint.Pow256(i) % 0x100
  {
    hide Varint.Digits, Varint.Pow256, Xor;
    var d := Varint.Digits(pn, 4);
    pad := Zeros(|iv| - 4) + d;
    forall i | 0 <= i < 4
      ensures pad[|iv| - 1 - i] == pn / Varint.Pow256(i) % 0x100
    {
      DigitAt(pn, 4, i);
      assert pad[|iv| - 1 - i] == d[4 - 1 - i];
    }
  }

  /** Builds the nonce in place, lowest byte of the packet number last. */
  method MakeNonce(iv: Bytes, pn: uint32) returns (nonce: Bytes)
    requires |iv| >= 4
    ensures nonce == Nonce(iv, pn)
  {
    hide Nonce, Varint.Pow256, Xor;
    ghost var pad := NonceBytes(iv, pn);
    var n := new byte[|iv|](i requires 0 <= i < |iv| => iv[i]);
    for i := 0 to 4
      invariant forall k :: 0 <= k < |iv| ==> n[k] == if k < |iv| - i then iv[k] else XorByte(iv[k], pad[k])
    {
      var at := |iv| - 1 - i;
      n[at] := XorByte(n[at], pn / Varint.Pow256(i) % 0x100);
    }
    nonce := n[..];
  }

  /** Different packet numbers never share a nonce. */
  lemma NonceInjective(iv: Bytes, a: uint32, b: uint32)
    requires |iv| >= 4 && Nonce(iv, a) == Nonce(iv, b)
    ensures a == b
  {
    var tail, da, db := iv[|iv| - 4..], Varint.Digits(a, 4), Varint.Digits(b, 4);
    assert XorSeq(tail, da) == Nonce(iv, a)[|iv| - 4..];
    assert XorSeq(tail, db) == Nonce(iv, b)[|iv| - 4..];
    forall i | 0 <= i < 4
      ensures da[i] == db[i]
    {
      assert XorByte(tail[i], da[i]) == XorByte(tail[i], db[i]);
      XorCommutes(tail[i], da[i]);
      XorCommutes(tail[i], db[i]);
      XorInvolution(da[i], tail[i]);
      XorInvolution(db[i], tail[i]);
    }
    assert da == db;
    assert Varint.Pow256(4) == 0x1_0000_0000 by { assert Varint.Pow256(2) == 0x1_0000; }
    Varint.ShiftedDigits(0, a, 4);
    Varint.ShiftedDigits(0, b, 4);
  }

  // ------------------------------------------------------------------ header protection

  /** What masking n bytes from at on makes of the byte b at index i: of the first byte only the low half changes. */
  function MaskedByte(b: byte, mask: Bytes, at: nat, n: nat, i: nat): byte
    requires n <= 4 && |mask| == SAMPLE
  {
    if i == 0 then XorByte(b, mask[0] % 0x10)
    else if at <= i < at + n then XorByte(b, mask[1 + i - at])
    else b
  }

  function Masked(p: Bytes, mask: Bytes, at: nat, n: nat): (q: Bytes)
    requires n <= 4 && |mask| == SAMPLE
    ensures |q| == |p|
    ensures forall i :: 0 <= i < |p| ==> q[i] == MaskedByte(p[i], mask, at, n, i)
  {
    seq(|p|, i requires 0 <= i < |p| => MaskedByte(p[i], mask, at, n, i))
  }

  /** The low half of the first byte takes mask byte 0, the n number bytes take mask bytes 1 to n. */
  lemma MaskByIndex(p: Bytes, mask: Bytes, at: nat, n: nat)
    requires |mask| == SAMPLE && 1 <= at && n <= 4 && at + n <= |p|
    ensures var q := Masked(p, mask, at, n);
            && q[0] == XorByte(p[0], mask[0] % 0x10)
            && q[at..at + n] == XorSeq(p[at..at + n], mask[1..1 + n])
            && q[1..at] == p[1..at] && q[at + n..] == p[at + n..]
  {
  }

  /** The last four bytes of the vector take the packet number, its low byte last; the others stay. */
  lemma NonceByIndex(iv: Bytes, pn: uint32)
    requires |iv| >= 4
    ensures var n, k := Nonce(iv, pn), |iv|;
            && n[..k - 4] == iv[..k - 4]
            && n[k - 1] == XorByte(iv[k - 1], pn % 0x100) && n[k - 2] == XorByte(iv[k - 2], pn / 0x100 % 0x100)
            && n[k - 3] == XorByte(iv[k - 3], pn / 0x1_0000 % 0x100)
            && n[k - 4] == XorByte(iv[k - 4], pn / 0x100_0000 % 0x100)
  {
    hide Nonce;
    Powers();
    var pad := NonceBytes(iv, pn);
    var k := |iv|;
    assert pad[k - 1 - 0] == pn / 1 % 0x100 && pad[k - 1 - 1] == pn / 0x100 % 0x100;
    assert pad[k - 1 - 2] == pn / 0x1_0000 % 0x100 && pad[k - 1 - 3] == pn / 0x100_0000 % 0x100;
    assert Nonce(iv, pn)[..k - 4] == iv[..k - 4];
  }

  lemma Powers()
    ensures Varint.Pow256(0) == 1 && Varint.Pow256(1) == 0x100
    ensures Varint.Pow256(2) == 0x1_0000 && Varint.Pow256(3) == 0x100_0000
  {
  }

  lemma MaskedByteTwice(b: byte, mask: Bytes, at: nat, n: nat, i: nat)
    requires n <= 4 && |mask| == SAMPLE
    ensures MaskedByte(MaskedByte(b, mask, at, n, i), mask, at, n, i) == b
  {
    if i == 0 {
      XorByteTwice(b, mask[0] % 0x10);
    } else if at <= i < at + n {
      XorByteTwice(b, mask[1 + i - at]);
    }
  }

  /** Unmasking four bytes before the length is known, then putting back those beyond it. */
  function Unmasked(q: Bytes, mask: Bytes, at: nat): (p: Bytes)
    requires 1 <= at && at + 4 <= |q| && |mask| == SAMPLE
    ensures |p| == |q|
  {
    var four := Masked(q, mask, at, 4);
    var n := four[0] % 4 + 1;
    four[..at + n] + q[at + n..at + 4] + four[at + 4..]
  }

  /** Whatever the length hidden in the first byte, this inverts protection exactly. */
  lemma UnmaskedInverts(p: Bytes, mask: Bytes, at: nat)
    requires 1 <= at && at + 4 <= |p| && |mask| == SAMPLE
    ensures Unmasked(Masked(p, mask, at, p[0] % 4 + 1), mask, at) == p
  {
    var n := p[0] % 4 + 1;
    var q := Masked(p, mask, at, n);
    MaskedByteTwice(p[0], mask, at, n, 0);
    assert Masked(q, mask, at, 4)[0] == p[0];
    UnmaskedAt(p, q, mask, at, n);
  }

  lemma UnmaskedAt(p: Bytes, q: Bytes, mask: Bytes, at: nat, n: nat)
    requires 1 <= at && at + 4 <= |p| && |mask| == SAMPLE && 1 <= n <= 4
    requires q == Masked(p, mask, at, n)
    requires Masked(q, mask, at, 4)[0] % 4 + 1 == n
    ensures Unmasked(q, mask, at) == p
  {
    forall i | 0 <= i < |p|
      ensures Unmasked(q, mask, at)[i] == p[i]
    {
      MaskedByteTwice(p[i], mask, at, n, i);
      assert q[i] == MaskedByte(p[i], mask, at, n, i);
      assert Masked(q, mask, at, 4)[i] == MaskedByte(q[i], mask, at, 4, i);
    }
  }

  /** Masks a packet in place; refused when it is too short for the sample. */
  method ApplyHeaderProtection(pkt: array<byte>, suite: Suite, hp: Bytes, at: nat, n: nat) returns (ok: bool)
    requires suite.Sound() && 1 <= at && n <= 4
    modifies pkt
    ensures ok <==> pkt.Length >= at + 4 + SAMPLE
    ensures !ok ==> pkt[..] == old(pkt[..])
    ensures ok ==> pkt[..] == Masked(old(pkt[..]), suite.mask(hp, old(pkt[at + 4..at + 4 + SAMPLE])), at, n)
  {
    if pkt.Length < at + 4 + SAMPLE {
      return false;
    }
    var mask := suite.mask(hp, pkt[at + 4..at + 4 + SAMPLE]);
    MaskInPlace(pkt, mask, at, n);
    ok := true;
  }

  method MaskInPlace(pkt: array<byte>, mask: Bytes, at: nat, n: nat)
    requires |mask| == SAMPLE && 1 <= at && n <= 4 && at + n <= pkt.Length
    modifies pkt
    ensures pkt[..] == Masked(old(pkt[..]), mask, at, n)
  {
    ghost var before := pkt[..];
    pkt[0] := XorByte(pkt[0], mask[0] % 0x10);
    for i := 0 to n
      invariant forall k :: 0 <= k < pkt.Length ==> pkt[k] == MaskedByte(before[k], mask, at, i, k)
    {
      pkt[at + i] := XorByte(pkt[at + i], mask[1 + i]);
    }
    assert pkt[..] == Masked(before, mask, at, n);
  }
}
