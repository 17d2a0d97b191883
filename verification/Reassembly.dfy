/** Putting IPv4 fragments back together (section 3.2 of RFC 791), and the identifiers that keep datagrams apart. */
module Reassembly {
  import opened Bits
  import Checksum
  import opened Fragments
  import opened Options

  datatype Key = Key(src: seq<byte>, dst: seq<byte>, id: uint16)

  datatype Fragment = Fragment(key: Key, offset: nat, more: bool, data: seq<byte>)

  // ------------------------------------------------------------------ one packet

  /** A UDP fragment whose header is sound; a fragment with more to come holds whole eight-byte units. */
  function Heard(pkt: seq<byte>): Option<Fragment> {
    if |pkt| < 20 || pkt[0] != 0x45 || pkt[9] != UDP || !Checksum.Verifies(pkt[..20]) then None
    else
      var length, field := Get16(pkt[2..4]), Get16(pkt[6..8]);
      var more := field / MORE % 2 == 1;
      if length < 20 || length > |pkt| || (more && (length - 20) % 8 != 0) then None
      else Some(Fragment(Key(pkt[12..16], pkt[16..20], Get16(pkt[4..6])), field % MORE * 8, more, pkt[20..length]))
  }

  lemma FieldReads(offset: nat, more: bool)
    requires offset % 8 == 0 && offset < 0x1_0000
    ensures FragmentField(offset, more) % MORE * 8 == offset
    ensures FragmentField(offset, more) / MORE % 2 == 1 <==> more
  {
    assert offset / 8 < MORE;
  }

  /** Every packet that is built reads as the piece it was built from. */
  lemma PacketHeard(src: seq<byte>, dst: seq<byte>, id: uint16, offset: nat, data: seq<byte>, more: bool)
    requires |src| == 4 && |dst| == 4 && offset % 8 == 0 && offset < 0x1_0000 && |data| <= 65515
    requires more ==> |data| % 8 == 0
    ensures Heard(Packet(src, dst, id, offset, data, more)) == Some(Fragment(Key(src, dst, id), offset, more, data))
  {
    hide FragmentField, Checksum.FilledField, Checksum.Verifies, Get16;
    var head := PacketHead(id, offset, |data|, more);
    var sum := Put16(Checksum.FilledField(head, src + dst));
    Checksum.FilledVerifies(head, src + dst);
    Slices(head, sum, src, dst, data);
    FieldReads(offset, more);
    var p := head + sum + (src + dst) + data;
    assert p[0] == head[0] == 0x45 && p[9] == head[9] == UDP;
    assert p[2..4] == head[2..4] == Put16(Truncate16(20 + |data|));
    assert p[4..6] == head[4..6] == Put16(id);
    assert p[6..8] == head[6..8] == Put16(FragmentField(offset, more));
    assert p[20..|p|] == data;
  }

  lemma Slices(head: seq<byte>, sum: seq<byte>, src: seq<byte>, dst: seq<byte>, data: seq<byte>)
    requires |head| == 10 && |sum| == 2 && |src| == 4 && |dst| == 4
    ensures var p := head + sum + (src + dst) + data;
            && p[..10] == head && p[..20] == head + sum + (src + dst)
            && p[12..16] == src && p[16..20] == dst && p[20..] == data
  {
  }

  // ------------------------------------------------------------------ the receiver

  /** What has arrived of one datagram: bytes by position, and its length once the last piece is here. */
  datatype Buffer = Buffer(bytes: map<int, byte>, total: Option<nat>)

  const EMPTY := Buffer(map[], None)

  predicate Spans(f: Fragment, i: int) {
    f.offset <= i < f.offset + |f.data|
  }

  function Placed(f: Fragment): map<int, byte> {
    map i | f.offset <= i < f.offset + |f.data| && Spans(f, i) :: f.data[i - f.offset]
  }

  /** Where pieces overlap either copy may win. */
  function Arrive(b: Buffer, f: Fragment, keepFirst: bool): Buffer {
    Buffer(if keepFirst then Placed(f) + b.bytes else b.bytes + Placed(f),
           if f.more then b.total else Some(f.offset + |f.data|))
  }

  /** The fragments of one key among the packets that came in, in the order they came. */
  function HeardAll(key: Key, pkts: seq<seq<byte>>): seq<Fragment> {
    if pkts == [] then []
    else
      var f := Heard(pkts[|pkts| - 1]);
      HeardAll(key, pkts[..|pkts| - 1]) + if f.Some? && f.value.key == key then [f.value] else []
  }

  function ArriveAll(fs: seq<Fragment>, keepFirst: bool): Buffer {
    if fs == [] then EMPTY else Arrive(ArriveAll(fs[..|fs| - 1], keepFirst), fs[|fs| - 1], keepFirst)
  }

  /** The datagram, once no byte of it is missing. */
  function Delivered(b: Buffer): Option<seq<byte>> {
    if b.total.Some? && forall i :: 0 <= i < b.total.value ==> i in b.bytes
    then Some(seq(b.total.value, i requires 0 <= i < b.total.value => b.bytes[i]))
    else None
  }

  /** f is a piece of whole. */
  predicate PieceOf(f: Fragment, whole: seq<byte>) {
    && f.offset + |f.data| <= |whole| && f.data == whole[f.offset..f.offset + |f.data|]
    && (!f.more ==> f.offset + |f.data| == |whole|)
  }

  ghost predicate Held(fs: seq<Fragment>, i: int) {
    exists f :: f in fs && Spans(f, i)
  }

  ghost predicate Ended(fs: seq<Fragment>) {
    exists f :: f in fs && !f.more
  }

  /** What the buffer holds is decided by which pieces came, not by their order. */
  ghost predicate Reflects(b: Buffer, fs: seq<Fragment>, whole: seq<byte>) {
    && (forall i :: i in b.bytes <==> Held(fs, i))
    && (forall i :: i in b.bytes ==> 0 <= i < |whole| && b.bytes[i] == whole[i])
    && (b.total.Some? <==> Ended(fs))
    && (b.total.Some? ==> b.total.value == |whole|)
  }

  lemma {:induction false} BufferReflects(fs: seq<Fragment>, keepFirst: bool, whole: seq<byte>)
    requires forall f :: f in fs ==> PieceOf(f, whole)
    ensures Reflects(ArriveAll(fs, keepFirst), fs, whole)
    decreases |fs|
  {
    hide PieceOf, Reflects, Arrive;
    if fs == [] {
      NothingReflects(whole);
    } else {
      var front, last := fs[..|fs| - 1], fs[|fs| - 1];
      BufferReflects(front, keepFirst, whole);
      ArriveReflects(ArriveAll(front, keepFirst), front, last, keepFirst, whole);
      assert front + [last] == fs;
    }
  }

  lemma NothingReflects(whole: seq<byte>)
    ensures Reflects(EMPTY, [], whole)
  {
  }

  lemma ArriveReflects(b: Buffer, front: seq<Fragment>, last: Fragment, keepFirst: bool, whole: seq<byte>)
    requires Reflects(b, front, whole) && PieceOf(last, whole)
    ensures Reflects(Arrive(b, last, keepFirst), front + [last], whole)
  {
    var fs, c := front + [last], Arrive(b, last, keepFirst);
    assert forall f :: f in fs <==> f in front || f == last;
    forall i
      ensures i in c.bytes <==> Held(fs, i)
    {
      assert i in c.bytes <==> i in b.bytes || Spans(last, i);
    }
    assert last in fs;
  }

  /** A receiver never hands over anything but the datagram, and does so once its pieces cover it. */
  lemma DeliversExactlyWhen(b: Buffer, fs: seq<Fragment>, whole: seq<byte>)
    requires Reflects(b, fs, whole)
    ensures Delivered(b) == if Ended(fs) && forall i :: 0 <= i < |whole| ==> Held(fs, i) then Some(whole) else None
  {
    hide Held, Ended;
    if Delivered(b).Some? {
      assert Delivered(b).value == whole;
    }
  }

  lemma {:induction false} HeardMembers(key: Key, pkts: seq<seq<byte>>)
    ensures forall f :: f in HeardAll(key, pkts) <==> f.key == key && exists q :: q in pkts && Heard(q) == Some(f)
    decreases |pkts|
  {
    hide Heard;
    if pkts != [] {
      var front, last := pkts[..|pkts| - 1], pkts[|pkts| - 1];
      HeardMembers(key, front);
      assert forall q :: q in pkts <==> q in front || q == last;
    }
  }

  // ------------------------------------------------------------------ what was cut comes back together

  const MAX_DATAGRAM: nat := 65515

  /** The pieces the cuts make of a datagram. */
  function Pieces(key: Key, whole: seq<byte>, cs: seq<Cut>): (fs: seq<Fragment>)
    requires forall c :: c in cs ==> 0 <= c.off && 0 <= c.len && c.off + c.len <= |whole|
    ensures |fs| == |cs|
  {
    seq(|cs|, i requires 0 <= i < |cs| =>
      Fragment(key, cs[i].off, i < |cs| - 1, whole[cs[i].off..cs[i].off + cs[i].len]))
  }

  /** One built packet reads as the piece of its cut. */
  lemma CutHeard(key: Key, whole: seq<byte>, cs: seq<Cut>, i: nat)
    requires |key.src| == 4 && |key.dst| == 4 && |whole| <= MAX_DATAGRAM && WellCut(cs, |whole|) && i < |cs|
    requires forall c :: c in cs ==> 0 <= c.off && 0 <= c.len && c.off + c.len <= |whole|
    ensures var f := Pieces(key, whole, cs)[i];
            Heard(Packet(key.src, key.dst, key.id, f.offset, f.data, f.more)) == Some(f)
  {
    hide Heard, Packet;
    var f := Pieces(key, whole, cs)[i];
    assert cs[i] in cs;
    PacketHeard(key.src, key.dst, key.id, f.offset, f.data, f.more);
  }

  /** A built list holds one packet for every piece, whichever way round it is sent. */
  lemma BuiltHeard(d: Datagram, p: Plan, id: uint16) returns (cs: seq<Cut>)
    requires d.Valid() && 8 + |d.payload| <= MAX_DATAGRAM && BuiltOf(d, p, id).Fragments?
    ensures CutsOf(8 + |d.payload|, p) == Planned(cs) && WellCut(cs, 8 + |d.payload|)
    ensures forall c :: c in cs ==> 0 <= c.off && 0 <= c.len && c.off + c.len <= 8 + |d.payload|
    ensures SameHeard(BuiltOf(d, p, id).packets, Pieces(Key(d.src, d.dst, id), d.Bytes(), cs))
  {
    hide CutsOf, Heard, Packet, Datagram.Bytes, WellCut, SameHeard;
    cs := CutsOf(8 + |d.payload|, p).cuts;
    AcceptedIsWellCut(8 + |d.payload|, p);
    CutsInside(cs, 8 + |d.payload|);
    var key, qs := Key(d.src, d.dst, id), Packets(d, id, cs, |cs|);
    var fs := Pieces(key, d.Bytes(), cs);
    forall i | 0 <= i < |cs|
      ensures Heard(qs[i]) == Some(fs[i])
    {
      CutHeard(key, d.Bytes(), cs, i);
    }
    EachHeard(qs, BuiltOf(d, p, id).packets, fs);
  }

  /** These packets read as exactly these fragments. */
  ghost predicate SameHeard(qs: seq<seq<byte>>, fs: seq<Fragment>) {
    && (forall q :: q in qs ==> Heard(q).Some? && Heard(q).value in fs)
    && (forall f :: f in fs ==> exists q :: q in qs && Heard(q) == Some(f))
  }

  lemma EachHeard(qs: seq<seq<byte>>, built: seq<seq<byte>>, fs: seq<Fragment>)
    requires |qs| == |fs| && forall i :: 0 <= i < |fs| ==> Heard(qs[i]) == Some(fs[i])
    requires built == qs || built == Reversed(qs)
    ensures SameHeard(built, fs)
  {
    hide Heard;
    SameMembers(qs);
    forall f | f in fs
      ensures exists q :: q in built && Heard(q) == Some(f)
    {
      var i :| 0 <= i < |fs| && fs[i] == f;
      assert qs[i] in qs;
    }
  }

  lemma SameMembers<T>(s: seq<T>)
    ensures forall x :: x in Reversed(s) <==> x in s
  {
    forall x | x in s
      ensures x in Reversed(s)
    {
      var i :| 0 <= i < |s| && s[i] == x;
      assert Reversed(s)[|s| - 1 - i] == x;
    }
  }

  /** The pieces all together hold what the cuts cover, and each is a piece of the whole. */
  lemma PiecesHold(key: Key, whole: seq<byte>, cs: seq<Cut>, fs: seq<Fragment>)
    requires WellCut(cs, |whole|)
    requires forall c :: c in cs ==> 0 <= c.off && 0 <= c.len && c.off + c.len <= |whole|
    requires forall f :: f in fs ==> f in Pieces(key, whole, cs)
    ensures forall f :: f in fs ==> PieceOf(f, whole)
    ensures (forall f :: f in Pieces(key, whole, cs) ==> f in fs) ==>
            Ended(fs) && forall k :: Held(fs, k) <==> Covered(cs, k)
  {
    var ps := Pieces(key, whole, cs);
    forall f | f in fs
      ensures PieceOf(f, whole)
    {
      var i :| 0 <= i < |ps| && ps[i] == f;
    }
    if forall f :: f in ps ==> f in fs {
      assert ps[|ps| - 1] in ps && !ps[|ps| - 1].more;
      forall k
        ensures Held(fs, k) <==> Covered(cs, k)
      {
        HeldIsCovered(key, whole, cs, fs, k);
      }
    }
  }

  lemma HeldIsCovered(key: Key, whole: seq<byte>, cs: seq<Cut>, fs: seq<Fragment>, k: int)
    requires forall c :: c in cs ==> 0 <= c.off && 0 <= c.len && c.off + c.len <= |whole|
    requires forall f :: f in fs <==> f in Pieces(key, whole, cs)
    ensures Held(fs, k) <==> Covered(cs, k)
  {
    var ps := Pieces(key, whole, cs);
    if Held(fs, k) {
      var f :| f in fs && Spans(f, k);
      var i :| 0 <= i < |ps| && ps[i] == f;
      assert cs[i] in cs && Covers(cs[i], k);
    }
    if Covered(cs, k) {
      var c :| c in cs && Covers(c, k);
      var i :| 0 <= i < |cs| && cs[i] == c;
      assert ps[i] in ps && Spans(ps[i], k);
    }
  }

  /** This packet is a fragment of that key. */
  predicate Mine(pkt: seq<byte>, key: Key) {
    Heard(pkt).Some? && Heard(pkt).value.key == key
  }

  /** What is heard, when only built packets carry the key. */
  lemma HeardPieces(built: seq<seq<byte>>, pkts: seq<seq<byte>>, key: Key, fs: seq<Fragment>)
    requires forall q :: q in pkts && Mine(q, key) ==> q in built
    requires SameHeard(built, fs) && forall f :: f in fs ==> f.key == key
    ensures forall f :: f in HeardAll(key, pkts) ==> f in fs
    ensures (forall q :: q in built ==> q in pkts) ==> forall f :: f in fs ==> f in HeardAll(key, pkts)
  {
    hide Heard;
    HeardMembers(key, pkts);
  }

  /**
    For every datagram that fits IPv4 and every accepted plan: let the fragments arrive in any order, any
    number of times, among any packets of other keys. The receiver gets the original datagram exactly when
    the cuts leave no gap, and gets nothing at all otherwise; what it gets is from the one port to the other with
    the payload given, and passes its UDP checksum.
    */
  lemma AnyOrder(d: Datagram, p: Plan, id: uint16, pkts: seq<seq<byte>>, keepFirst: bool)
    requires d.Valid() && 8 + |d.payload| <= MAX_DATAGRAM && BuiltOf(d, p, id).Fragments?
    requires forall q :: q in BuiltOf(d, p, id).packets ==> q in pkts
    requires forall q :: q in pkts && Mine(q, Key(d.src, d.dst, id)) ==> q in BuiltOf(d, p, id).packets
    ensures Delivered(ArriveAll(HeardAll(Key(d.src, d.dst, id), pkts), keepFirst)) ==
         if Gapless(CutsOf(8 + |d.payload|, p).cuts, 8 + |d.payload|) then Some(d.Bytes()) else None
    ensures var out := Delivered(ArriveAll(HeardAll(Key(d.src, d.dst, id), pkts), keepFirst));
            out.Some? ==> UdpCarries(out.value, d.sport, d.dport, d.payload) && UdpAccepts(d.src, d.dst, out.value)
  {
    DatagramByIndex(d);
    hide *;
    var key, whole := Key(d.src, d.dst, id), d.Bytes();
    var cs := BuiltHeard(d, p, id);
    var ps, fs := Pieces(key, whole, cs), HeardAll(key, pkts);
    PiecesKeyed(key, whole, cs);
    HeardPieces(BuiltOf(d, p, id).packets, pkts, key, ps);
    PiecesHold(key, whole, cs, fs);
    BufferReflects(fs, keepFirst, whole);
    DeliversExactlyWhen(ArriveAll(fs, keepFirst), fs, whole);
    GaplessMeans(cs, 8 + |d.payload|);
    BuiltAccepted(d);
  }

  /** The i-th packet sent is the piece of the i-th cut, or of the i-th from the end when the order is reversed. */
  lemma SentInOrder(d: Datagram, p: Plan, id: uint16, i: nat)
    requires d.Valid() && 8 + |d.payload| <= MAX_DATAGRAM && BuiltOf(d, p, id).Fragments?
    requires i < |BuiltOf(d, p, id).packets|
    ensures var cs := CutsOf(8 + |d.payload|, p).cuts;
            && |BuiltOf(d, p, id).packets| == |cs|
            && var k := if p.disorder then |cs| - 1 - i else i;
               && 0 <= cs[k].off && 0 <= cs[k].len && cs[k].off + cs[k].len <= 8 + |d.payload|
               && Heard(BuiltOf(d, p, id).packets[i]) ==
                  Some(Fragment(Key(d.src, d.dst, id), cs[k].off, k < |cs| - 1,
                                d.Bytes()[cs[k].off..cs[k].off + cs[k].len]))
  {
    hide CutsOf, Heard, Packet, Datagram.Bytes, WellCut;
    var cs := CutsOf(8 + |d.payload|, p).cuts;
    AcceptedIsWellCut(8 + |d.payload|, p);
    CutsInside(cs, 8 + |d.payload|);
    var k := if p.disorder then |cs| - 1 - i else i;
    CutHeard(Key(d.src, d.dst, id), d.Bytes(), cs, k);
    assert cs[k] in cs;
  }

  lemma PiecesKeyed(key: Key, whole: seq<byte>, cs: seq<Cut>)
    requires forall c :: c in cs ==> 0 <= c.off && 0 <= c.len && c.off + c.len <= |whole|
    ensures forall f :: f in Pieces(key, whole, cs) ==> f.key == key
  {
  }

  lemma GaplessMeans(cs: seq<Cut>, total: int)
    ensures Gapless(cs, total) <==> forall i :: 0 <= i < total ==> Covered(cs, i)
  {
  }

  /** With pieces still missing the receiver has nothing or the original: never other bytes. */
  lemma NeverOtherBytes(d: Datagram, p: Plan, id: uint16, pkts: seq<seq<byte>>, keepFirst: bool)
    requires d.Valid() && 8 + |d.payload| <= MAX_DATAGRAM && BuiltOf(d, p, id).Fragments?
    requires forall q :: q in pkts && Mine(q, Key(d.src, d.dst, id)) ==> q in BuiltOf(d, p, id).packets
    ensures Delivered(ArriveAll(HeardAll(Key(d.src, d.dst, id), pkts), keepFirst)) in {None, Some(d.Bytes())}
  {
    hide *;
    var key, whole := Key(d.src, d.dst, id), d.Bytes();
    var cs := BuiltHeard(d, p, id);
    var ps, fs := Pieces(key, whole, cs), HeardAll(key, pkts);
    PiecesKeyed(key, whole, cs);
    HeardPieces(BuiltOf(d, p, id).packets, pkts, key, ps);
    PiecesHold(key, whole, cs, fs);
    BufferReflects(fs, keepFirst, whole);
    DeliversExactlyWhen(ArriveAll(fs, keepFirst), fs, whole);
  }

  // ------------------------------------------------------------------ identifiers

  const IDS: nat := 0x1_0000

  /** The identifier of ticket n; none when its low half is zero. */
  function FromTicket(n: nat): Option<uint16> {
    if n % IDS == 0 then None else Some(n % IDS)
  }

  /** What a caller makes of the second ticket it drew: the lowest bit is forced. */
  function FromRetry(n: nat): (id: uint16)
    ensures id != 0
  {
    if n % IDS % 2 == 0 then n % IDS + 1 else n % IDS
  }

  /** The shared counter: a 32-bit value of which callers see the low half. */
  class IdCounter {
    var value: uint32

    constructor (start: uint16)
      ensures value == start
    {
      value := start;
    }

    /** One atomic increment. */
    method Draw() returns (ticket: uint32)
      modifies this
      ensures ticket == value && value == (old(value) + 1) % 0x1_0000_0000
    {
      value := (value + 1) % 0x1_0000_0000;
      ticket := value;
    }

    method Next() returns (id: uint16)
      modifies this
      ensures id == NextId(old(value) % IDS) && value % IDS == id
    {
      var n := Draw();
      LowHalf(old(value));
      if n % IDS != 0 {
        return n % IDS;
      }
      LowHalf(n);
      n := Draw();
      id := FromRetry(n);
    }
  }

  lemma LowHalf(v: uint32)
    ensures (v + 1) % 0x1_0000_0000 % IDS == (v % IDS + 1) % IDS
  {
  }

  /** Without interference the identifiers run through 1 to 65535 and start over, never zero. */
  function NextId(low: nat): (id: uint16)
    requires low < IDS
    ensures id != 0
  {
    if low == IDS - 1 then 1 else low + 1
  }

  function IdAfter(low: nat, calls: nat): (id: nat)
    requires low < IDS
    ensures id < IDS && (calls > 0 ==> id != 0)
  {
    if calls == 0 then low else NextId(IdAfter(low, calls - 1))
  }

  lemma {:induction false} IdAfterIs(low: nat, calls: nat)
    requires low < IDS && calls > 0
    ensures IdAfter(low, calls) == (low + calls - 1) % (IDS - 1) + 1
    decreases calls
  {
    if calls > 1 {
      IdAfterIs(low, calls - 1);
    }
  }

  /** Two calls fewer than 65535 apart never share an identifier. */
  lemma IdsDistinct(low: nat, i: nat, j: nat)
    requires low < IDS && 0 < i < j < i + IDS - 1
    ensures IdAfter(low, i) != IdAfter(low, j)
  {
    IdAfterIs(low, i);
    IdAfterIs(low, j);
  }

  /** The identifier a caller makes of its first ticket, or of the one it drew after a zero. */
  function IdOf(ticket: nat, retried: bool): Option<uint16> {
    if retried then Some(FromRetry(ticket)) else FromTicket(ticket)
  }

  lemma LaterLow(a: nat, gap: nat)
    requires gap < IDS
    ensures (a + gap) % IDS == if a % IDS + gap < IDS then a % IDS + gap else a % IDS + gap - IDS
  {
    var q, r := a / IDS, a % IDS;
    if r + gap < IDS {
      QuotientUnique(a + gap, IDS, q, r + gap);
    } else {
      QuotientUnique(a + gap, IDS, q + 1, r + gap - IDS);
    }
  }

  lemma ParityOfLow(a: nat)
    ensures a % 2 == a % IDS % 2
  {
    var q, r := a / IDS, a % IDS;
    assert a == 2 * (0x8000 * q) + r;
  }

  /**
    The increment is atomic, the retry is not. In whatever way callers interleave, each draws its own tickets;
    two of them whose tickets lie fewer than 65535 apart share an identifier exactly when the later ticket is
    the next one, the earlier was drawn by a retry, and it is even.
    */
  lemma CollideExactlyWhen(a: nat, aRetried: bool, b: nat, bRetried: bool)
    requires a < b < a + IDS - 1 && IdOf(a, aRetried).Some? && IdOf(b, bRetried).Some?
    ensures IdOf(a, aRetried) == IdOf(b, bRetried) <==> b == a + 1 && aRetried && a % 2 == 0
  {
    LaterLow(a, b - a);
    ParityOfLow(a);
    LowsCollide(a % IDS, aRetried, b - a, bRetried);
  }

  /** The same on the low halves. */
  lemma LowsCollide(low: nat, aRetried: bool, gap: nat, bRetried: bool)
    requires low < IDS && 0 < gap < IDS - 1
    requires var later := if low + gap < IDS then low + gap else low + gap - IDS;
             (aRetried || low != 0) && (bRetried || later != 0)
    ensures var later := if low + gap < IDS then low + gap else low + gap - IDS;
            Odd(low, aRetried) == Odd(later, bRetried) <==> gap == 1 && aRetried && low % 2 == 0
  {
  }

  /** A retry forces the lowest bit. */
  function Odd(low: nat, retried: bool): nat {
    if retried && low % 2 == 0 then low + 1 else low
  }

  /** So one caller between the two increments is enough for two fragment trains to share an identifier. */
  lemma ParallelCallersCollide()
    ensures var zero, other, retry, next := 0x1_0000, 0x1_0001, 0x1_0002, 0x1_0003;
            FromTicket(zero) == None && FromTicket(other) == Some(1) && IdOf(retry, true) == IdOf(next, false)
  {
    CollideExactlyWhen(0x1_0002, true, 0x1_0003, false);
  }
}
