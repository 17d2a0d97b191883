/** Filling packet buffers in place. */
module Buffers {
  import opened Bits
  import Checksum

  /** Copies bs into a from index at on, growing the part already laid out. */
  method Write(a: array<byte>, at: nat, bs: seq<byte>)
    requires at + |bs| <= a.Length
    modifies a
    ensures a[..] == old(a[..at]) + bs + old(a[at + |bs|..])
  {
    forall i | 0 <= i < |bs| {
      a[at + i] := bs[i];
    }
  }

  /** Puts bs behind the part of a already laid out. */
  method Append(a: array<byte>, at: nat, bs: seq<byte>, ghost done: seq<byte>, ghost rest: seq<byte>)
    requires a[..] == done + rest && at == |done| && |bs| <= |rest|
    modifies a
    ensures a[..] == (done + bs) + rest[|bs|..]
  {
    Write(a, at, bs);
    assert (done + rest)[..at] == done && (done + rest)[at + |bs|..] == rest[|bs|..];
  }

  /** Stores v over the two bytes between front and back. */
  method Patch(a: array<byte>, at: nat, v: uint16, ghost front: seq<byte>, ghost hole: seq<byte>, ghost back: seq<byte>)
    requires a[..] == front + hole + back && at == |front| && |hole| == 2
    modifies a
    ensures a[..] == front + Put16(v) + back
  {
    Write(a, at, Put16(v));
    assert (front + hole + back)[..at] == front && (front + hole + back)[at + 2..] == back;
  }

  lemma Absorb(done: seq<byte>, n: nat, k: nat)
    requires k <= n
    ensures done + Zeros(n) == (done + Zeros(k)) + Zeros(n - k)
    ensures Zeros(n)[k..] == Zeros(n - k)
  {
  }

  /** The checksum of a buffer whose own field, between head and back, is read as zero. */
  method ZeroedSum(head: seq<byte>, back: seq<byte>) returns (c: uint16)
    requires |head| % 2 == 0
    ensures |head| + 2 + |back| <= Checksum.SAFE_LENGTH ==> c == Checksum.FilledField(head, back)
  {
    var zeros := [0, 0];
    c := Checksum.Compute(head + zeros + back);
    Checksum.ZeroedField(head, zeros, back);
  }

  /** Lays bs behind done in a buffer that is still zero from there on. */
  method AppendZeroed(a: array<byte>, at: nat, bs: seq<byte>, ghost done: seq<byte>, ghost left: nat)
    requires a[..] == done + Zeros(left) && at == |done| && |bs| <= left
    modifies a
    ensures a[..] == (done + bs) + Zeros(left - |bs|)
  {
    Append(a, at, bs, done, Zeros(left));
    Absorb(done, left, |bs|);
  }

  /** Addresses and checksum of an IPv4 header whose first ten bytes are laid out. */
  method FillIpRest(pkt: array<byte>, src: seq<byte>, dst: seq<byte>, ghost head: seq<byte>, n: nat)
    requires |src| == 4 && |dst| == 4 && |head| == 10 && n >= 20 && pkt[..] == head + Zeros(n - 10)
    modifies pkt
    ensures pkt[..] == head + Put16(Checksum.FilledField(head, src + dst)) + (src + dst) + Zeros(n - 20)
  {
    ghost var addresses := src + dst;
    Absorb(head, n - 10, 2);
    AppendZeroed(pkt, 12, src, head + Zeros(2), n - 12);
    AppendZeroed(pkt, 16, dst, head + Zeros(2) + src, n - 16);
    HeaderSlices(pkt[..], head, src, dst, n - 20);
    var sum := ZeroedSum(pkt[..10], pkt[12..20]);
    Patch(pkt, 10, sum, head, Zeros(2), addresses + Zeros(n - 20));
    Reassociate(head, Put16(sum), addresses, Zeros(n - 20));
  }

  lemma Reassociate(a: seq<byte>, b: seq<byte>, c: seq<byte>, d: seq<byte>)
    ensures a + b + (c + d) == a + b + c + d
  {
  }

  lemma HeaderSlices(p: seq<byte>, head: seq<byte>, src: seq<byte>, dst: seq<byte>, left: nat)
    requires |head| == 10 && |src| == 4 && |dst| == 4
    requires p == (head + Zeros(2) + src + dst) + Zeros(left)
    ensures p[..10] == head && p[12..20] == src + dst
    ensures p == head + Zeros(2) + (src + dst + Zeros(left))
  {
  }
}
