/**
  One IPv4/TCP packet, byte by byte: how the raw sender lays it out, and how the peer's
  stack reads it back. A damaged checksum, an unexpected TCP-MD5 option and a short TTL
  all keep a packet from the peer; nothing else about it is hidden.
  */
module TcpPacket {
  import opened Bits
  import Checksum
  import opened TcpReceiver
  import opened Options

  const SYN: byte := 0x02
  const URG: byte := 0x20
  const PSH_ACK: byte := 0x18
  const MAX_PACKET: nat := 0xffff

  /** How a segment is spoiled; Plain sends it as it is. */
  datatype Poison = Poison(
    named: bool, ttl: nat, badsum: bool, seqShift: int, md5: bool, timestamps: bool, ipIdZero: bool,
    synData: bool, oob: bool, fakeBetween: bool, disorder: bool, repeats: int, seqovl: nat, decoy: seq<byte>)
  {
    /** Whether a separate decoy segment precedes the real data. */
    predicate HasFake() {
      !(synData || oob || fakeBetween) && (badsum || md5 || ttl > 0 || seqShift != 0)
    }
  }

  const Clean := Poison(false, 0, false, 0, false, false, false, false, false, false, false, 0, 0, [])

  datatype Flow = Flow(src: seq<byte>, dst: seq<byte>, sport: uint16, dport: uint16, ack: uint32)
  {
    predicate Valid() {
      |src| == 4 && |dst| == 4
    }
  }

  /** One call of the send routine, before it is turned into bytes. */
  datatype Sending = Sending(number: uint32, flags: byte, urgent: byte, payload: seq<byte>, poison: Poison)
  {
    function Options(): (o: seq<byte>)
      ensures |o| == 0 || |o| == 12 || |o| == 20
    {
      if poison.md5 then [19, 18] + Zeros(16) + [1, 1]
      else if poison.timestamps then [1, 1, 8, 10, 0, 0, 0, 1, 0, 0, 0, 0]
      else []
    }

    function Size(): nat {
      40 + |Options()| + |payload|
    }

    function Ttl(): byte {
      if poison.ttl > 0 then poison.ttl % 0x100 else 64
    }
  }

  function IpHead(length: uint16, id: uint16, ttl: byte): (h: seq<byte>)
    ensures |h| == 10
  {
    [0x45, 0] + Put16(length) + Put16(id) + [0, 0, ttl, 6]
  }

  function IpBytes(length: uint16, id: uint16, ttl: byte, flow: Flow): (h: seq<byte>)
    requires flow.Valid()
    ensures |h| == 20
  {
    var head := IpHead(length, id, ttl);
    head + Put16(Checksum.FilledField(head, flow.src + flow.dst)) + (flow.src + flow.dst)
  }

  function Pseudo(flow: Flow, length: uint16): (h: seq<byte>)
    requires flow.Valid()
    ensures |h| == 12
  {
    flow.src + flow.dst + [0, 6] + Put16(length)
  }

  /** The sixteen bytes in front of the TCP checksum. */
  function TcpHead(flow: Flow, number: uint32, offset: byte, flags: byte): (h: seq<byte>)
    ensures |h| == 16
  {
    Put16(flow.sport) + Put16(flow.dport) + Put32(number) + Put32(flow.ack) + [offset, flags] + Put16(0xffff)
  }

  function TcpTail(s: Sending): (t: seq<byte>)
    ensures |t| == 2 + |s.Options()| + |s.payload|
  {
    [0, s.urgent] + s.Options() + s.payload
  }

  function DataOffset(s: Sending): byte {
    (5 + |s.Options()| / 4) * 0x10
  }

  function TcpSum(flow: Flow, s: Sending): uint16
    requires flow.Valid() && s.Size() <= MAX_PACKET
  {
    Checksum.FilledField(
      Pseudo(flow, s.Size() - 20) + TcpHead(flow, s.number, DataOffset(s), s.flags), TcpTail(s))
  }

  function Spoiled(sum: uint16, p: Poison): uint16 {
    if p.badsum then Checksum.Damaged(sum, Checksum.DAMAGE) else sum
  }

  function StoredSum(flow: Flow, s: Sending): uint16
    requires flow.Valid() && s.Size() <= MAX_PACKET
  {
    Spoiled(TcpSum(flow, s), s.poison)
  }

  function TcpBytes(flow: Flow, s: Sending): (t: seq<byte>)
    requires flow.Valid() && s.Size() <= MAX_PACKET
    ensures |t| == s.Size() - 20
  {
    TcpHead(flow, s.number, DataOffset(s), s.flags) + Put16(StoredSum(flow, s)) + TcpTail(s)
  }

  /** The packet for s, sent over flow with IP identification id. */
  function PacketBytes(flow: Flow, s: Sending, id: uint16): (p: seq<byte>)
    requires flow.Valid() && s.Size() <= MAX_PACKET
    ensures |p| == s.Size()
  {
    IpBytes(s.Size(), id, s.Ttl(), flow) + TcpBytes(flow, s)
  }

  // ------------------------------------------------------------------ reading it back

  /**
    What stands between the sender and a reader, and what the reader checks. sent is the number of the next octet the
    reader would send itself; it has none when it only listens.
    */
  datatype Peer = Peer(hops: nat, checksSum: bool, refusesMd5: bool, sent: Option<uint32>)
  {
    /** Section 3.9 of RFC 793: an acknowledgement of something not yet sent, counting around the circle. */
    predicate Unsent(ack: uint32) {
      sent.Some? && 0 < Ahead(sent.value, ack) < 0x8000_0000
    }
  }

  /** An octet is not yet sent when it lies one to 2^31 - 1 places ahead. */
  lemma UnsentExactlyWhen(peer: Peer, next: uint32, ahead: nat)
    requires peer.sent == Some(next) && ahead < 0x1_0000_0000
    ensures peer.Unsent((next + ahead) % 0x1_0000_0000) <==> 1 <= ahead <= 0x7fff_ffff
  {
    AheadOfBase(next, ahead);
  }

  /** Walks the TCP options (section 3.1 of RFC 793) looking for kind 19. */
  predicate HasMd5(o: seq<byte>)
    decreases |o|
  {
    if o == [] || o[0] == 0 then false
    else if o[0] == 1 then HasMd5(o[1..])
    else if o[0] == 19 then true
    else if |o| < 2 || o[1] < 2 || |o| < o[1] then false
    else HasMd5(o[o[1]..])
  }

  /** The segment a peer takes out of packet p, or None when it never sees or drops it. */
  function Decode(peer: Peer, flow: Flow, p: seq<byte>): Option<Segment>
    requires flow.Valid()
  {
    if |p| < 40 || p[0] != 0x45 || Get16(p[2..]) != |p| || p[8] <= peer.hops || p[9] != 6 then None
    else if !Checksum.Verifies(p[..20]) || p[12..20] != flow.src + flow.dst then None
    else DecodeTcp(peer, flow, p[20..])
  }

  function DecodeTcp(peer: Peer, flow: Flow, t: seq<byte>): Option<Segment>
    requires flow.Valid() && |t| >= 20
  {
    var offset := t[12] / 0x10 * 4;
    if offset < 20 || |t| < offset || t[..4] != Put16(flow.sport) + Put16(flow.dport) then None
    else if |t| > 0xffff || (peer.checksSum && !Checksum.Verifies(Pseudo(flow, |t|) + t)) then None
    else if peer.refusesMd5 && HasMd5(t[20..offset]) then None
    else if t[13] / 2 % 2 == 0 && t[13] / 0x10 % 2 == 1 && peer.Unsent(Get32(t[8..])) then None
    else
      Some(Segment(Get32(t[4..]), t[13] / 2 % 2 == 1, t[13] / 0x10 % 2 == 1,
                   if t[13] / 0x20 % 2 == 1 then Get16(t[18..]) else 0, t[offset..]))
  }

  function SegmentOf(s: Sending): Segment {
    Segment(s.number, s.flags / 2 % 2 == 1, s.flags / 0x10 % 2 == 1,
            if s.flags / 0x20 % 2 == 1 then s.urgent else 0, s.payload)
  }

  /** A peer sees s unless the TTL runs out, the checksum is damaged or it refuses TCP-MD5. */
  predicate Seen(peer: Peer, s: Sending) {
    peer.hops < s.Ttl() && !(peer.checksSum && s.poison.badsum) && !(peer.refusesMd5 && s.poison.md5)
  }

  /** A segment dropped for what it acknowledges; a SYN is judged before that. */
  predicate Ignored(peer: Peer, flow: Flow, s: Sending) {
    !SegmentOf(s).syn && SegmentOf(s).ack && peer.Unsent(flow.ack)
  }

  lemma IpVerifies(length: uint16, id: uint16, ttl: byte, flow: Flow)
    requires flow.Valid()
    ensures Checksum.Verifies(IpBytes(length, id, ttl, flow))
  {
    Checksum.FilledVerifies(IpHead(length, id, ttl), flow.src + flow.dst);
  }

  /** A field spoiled as p says verifies exactly when p does not damage it. */
  lemma TcpVerifies(head: seq<byte>, tail: seq<byte>, p: Poison)
    requires |head| % 2 == 0
    ensures Checksum.Verifies(head + Put16(Spoiled(Checksum.FilledField(head, tail), p)) + tail) <==> !p.badsum
  {
    if p.badsum {
      Checksum.BrokenNeverVerifies(head, tail);
    } else {
      Checksum.FilledVerifies(head, tail);
    }
  }

  lemma Md5Found(s: Sending)
    ensures HasMd5(s.Options()) <==> s.poison.md5
  {
    var o := s.Options();
    if !s.poison.md5 && s.poison.timestamps {
      var body := o[1..][1..];
      assert body == [8, 10, 0, 0, 0, 1, 0, 0, 0, 0];
      assert !HasMd5(body) by {
        assert body[body[1]..] == [];
      }
      assert !HasMd5(o[1..]);
    }
  }

  lemma IpFields(length: uint16, id: uint16, ttl: byte, flow: Flow)
    requires flow.Valid()
    ensures var h := IpBytes(length, id, ttl, flow);
            h[0] == 0x45 && Get16(h[2..]) == length && h[8] == ttl && h[9] == 6 && h[12..20] == flow.src + flow.dst
  {
    var h := IpBytes(length, id, ttl, flow);
    assert h[2] == Put16(length)[0] && h[3] == Put16(length)[1];
  }

  lemma HeadFields(flow: Flow, number: uint32, offset: byte, flags: byte)
    ensures var h := TcpHead(flow, number, offset, flags);
            && h[..4] == Put16(flow.sport) + Put16(flow.dport)
            && h[4..8] == Put32(number) && h[8..12] == Put32(flow.ack) && h[12] == offset && h[13] == flags
  {
  }

  predicate FieldsOf(t: seq<byte>, flow: Flow, s: Sending) {
    var offset := 20 + |s.Options()|;
    && |t| == s.Size() - 20
    && t[12] / 0x10 * 4 == offset && t[13] == s.flags
    && t[..4] == Put16(flow.sport) + Put16(flow.dport)
    && Get32(t[4..]) == s.number && Get32(t[8..]) == flow.ack && Get16(t[18..]) == s.urgent
    && t[20..offset] == s.Options() && t[offset..] == s.payload
  }

  lemma FieldsWithSum(flow: Flow, s: Sending, sum: uint16)
    ensures FieldsOf(TcpHead(flow, s.number, DataOffset(s), s.flags) + Put16(sum) + TcpTail(s), flow, s)
  {
    hide Put16, Get16, Put32, Get32, TcpHead;
    HeadFields(flow, s.number, DataOffset(s), s.flags);
    HeadSlices(TcpHead(flow, s.number, DataOffset(s), s.flags), Put16(sum), TcpTail(s));
    TailSlices(TcpHead(flow, s.number, DataOffset(s), s.flags), Put16(sum), [0, s.urgent], s.Options(), s.payload);
    Put32Read(s.number);
    Put32Read(flow.ack);
    UrgentRead(s.urgent);
  }

  lemma UrgentRead(u: byte)
    ensures Get16([0, u]) == u
  {
  }

  lemma Put32Read(v: uint32)
    ensures Get32(Put32(v)) == v
  {
  }

  lemma HeadSlices(h: seq<byte>, c: seq<byte>, tail: seq<byte>)
    requires |h| == 16 && |c| == 2
    ensures var t := h + c + tail;
            && t[..4] == h[..4] && t[12] == h[12] && t[13] == h[13]
            && Get32(t[4..]) == Get32(h[4..8]) && Get32(t[8..]) == Get32(h[8..12])
  {
  }

  lemma TailSlices(h: seq<byte>, c: seq<byte>, u: seq<byte>, o: seq<byte>, p: seq<byte>)
    requires |h| == 16 && |c| == 2 && |u| == 2
    ensures var t := h + c + (u + o + p);
            Get16(t[18..]) == Get16(u) && t[20..20 + |o|] == o && t[20 + |o|..] == p
  {
  }

  /** Reading a built packet gives back the segment that was meant, or nothing. */
  lemma DecodeBuilt(peer: Peer, flow: Flow, s: Sending, id: uint16)
    requires flow.Valid() && s.Size() <= MAX_PACKET
    ensures Decode(peer, flow, PacketBytes(flow, s, id)) ==
            if Seen(peer, s) && !Ignored(peer, flow, s) then Some(SegmentOf(s)) else None
  {
    hide DecodeTcp, IpBytes, TcpBytes, Checksum.Verifies, Get16;
    var p := PacketBytes(flow, s, id);
    var ip := IpBytes(s.Size(), id, s.Ttl(), flow);
    HeaderAhead(ip, TcpBytes(flow, s));
    IpVerifies(s.Size(), id, s.Ttl(), flow);
    IpFields(s.Size(), id, s.Ttl(), flow);
    TcpDecoded(peer, flow, s);
  }

  lemma HeaderAhead(ip: seq<byte>, t: seq<byte>)
    requires |ip| == 20
    ensures var p := ip + t;
            && p[..20] == ip && p[20..] == t && p[12..20] == ip[12..20]
            && p[0] == ip[0] && p[8] == ip[8] && p[9] == ip[9] && Get16(p[2..]) == Get16(ip[2..])
  {
  }

  lemma TcpDecoded(peer: Peer, flow: Flow, s: Sending)
    requires flow.Valid() && s.Size() <= MAX_PACKET
    ensures DecodeTcp(peer, flow, TcpBytes(flow, s)) ==
            if (peer.checksSum && s.poison.badsum) || (peer.refusesMd5 && s.poison.md5) || Ignored(peer, flow, s)
            then None
            else Some(SegmentOf(s))
  {
    var t := TcpBytes(flow, s);
    var head := Pseudo(flow, s.Size() - 20) + TcpHead(flow, s.number, DataOffset(s), s.flags);
    assert Pseudo(flow, |t|) + t == head + Put16(StoredSum(flow, s)) + TcpTail(s);
    TcpVerifies(head, TcpTail(s), s.poison);
    FieldsWithSum(flow, s, StoredSum(flow, s));
    Md5Found(s);
    hide Checksum.Verifies, HasMd5, TcpHead, Put16, Get16, Get32, TcpTail;
  }

  // ------------------------------------------------------------------ byte by byte

  /** The header of the built packet, byte by byte, but for the two checksums. */
  lemma IpByIndex(flow: Flow, s: Sending, id: uint16)
    requires flow.Valid() && s.Size() <= MAX_PACKET
    ensures var p := PacketBytes(flow, s, id);
            && p[0] == 0x45 && p[1] == 0 && Holds16(p, 2, |p|) && Holds16(p, 4, id) && p[6] == p[7] == 0
            && p[8] == (if s.poison.ttl > 0 then s.poison.ttl % 0x100 else 64) && p[9] == 6
            && p[12..16] == flow.src && p[16..20] == flow.dst
  {
    var p, ip := PacketBytes(flow, s, id), IpBytes(s.Size(), id, s.Ttl(), flow);
    assert p[..20] == ip;
    forall k | 0 <= k < 20
      ensures p[k] == ip[k]
    {
      assert p[..20][k] == p[k];
    }
    IpByOffset(s.Size(), id, s.Ttl(), flow);
    assert p[12..16] == ip[12..16] && p[16..20] == ip[16..20];
  }

  lemma IpByOffset(length: uint16, id: uint16, ttl: byte, flow: Flow)
    requires flow.Valid()
    ensures var h := IpBytes(length, id, ttl, flow);
            && h[0] == 0x45 && h[1] == 0 && Holds16(h, 2, length) && Holds16(h, 4, id) && h[6] == h[7] == 0
            && h[8] == ttl && h[9] == 6 && h[12..16] == flow.src && h[16..20] == flow.dst
  {
    var h := IpBytes(length, id, ttl, flow);
    assert h[2] == Put16(length)[0] && h[3] == Put16(length)[1] && h[4] == Put16(id)[0] && h[5] == Put16(id)[1];
  }

  lemma TcpByIndex(flow: Flow, s: Sending, id: uint16)
    requires flow.Valid() && s.Size() <= MAX_PACKET
    ensures var p, n := PacketBytes(flow, s, id), |s.payload|;
            && Holds16(p, 20, flow.sport) && Holds16(p, 22, flow.dport)
            && Holds32(p, 24, s.number) && Holds32(p, 28, flow.ack)
            && p[32] == (|p| - n - 20) / 4 * 0x10 && p[33] == s.flags && p[34] == p[35] == 0xff
            && p[38] == 0 && p[39] == s.urgent && p[|p| - n..] == s.payload
  {
    hide PacketBytes, TcpBytes, IpBytes, TcpHead, Put16, StoredSum, DataOffset, Holds16, Holds32;
    var ip, h, sum := IpBytes(s.Size(), id, s.Ttl(), flow), TcpHead(flow, s.number, DataOffset(s), s.flags),
        Put16(StoredSum(flow, s));
    HeadByOffset(flow, s.number, DataOffset(s), s.flags);
    PiecesAt(ip, h, sum, [0, s.urgent], s.Options(), s.payload);
    PacketIs(flow, s, id);
    HeadMoves(PacketBytes(flow, s, id), h);
  }

  lemma PacketIs(flow: Flow, s: Sending, id: uint16)
    requires flow.Valid() && s.Size() <= MAX_PACKET
    ensures PacketBytes(flow, s, id) ==
            IpBytes(s.Size(), id, s.Ttl(), flow)
            + (TcpHead(flow, s.number, DataOffset(s), s.flags) + Put16(StoredSum(flow, s))
               + ([0, s.urgent] + s.Options() + s.payload))
    ensures DataOffset(s) == (20 + |s.Options()|) / 4 * 0x10
  {
    hide IpBytes, TcpHead, Put16, StoredSum;
  }

  lemma HeadMoves(p: seq<byte>, head: seq<byte>)
    requires |p| >= 36 && |head| == 16 && forall k :: 0 <= k < 16 ==> p[20 + k] == head[k]
    ensures forall v :: (Holds16(p, 20, v) <==> Holds16(head, 0, v)) && (Holds16(p, 22, v) <==> Holds16(head, 2, v))
    ensures forall v :: (Holds32(p, 24, v) <==> Holds32(head, 4, v)) && (Holds32(p, 28, v) <==> Holds32(head, 8, v))
  {
    assert p[20] == head[0] && p[21] == head[1] && p[22] == head[2] && p[23] == head[3];
    assert p[24] == head[4] && p[25] == head[5] && p[26] == head[6] && p[27] == head[7];
    assert p[28] == head[8] && p[29] == head[9] && p[30] == head[10] && p[31] == head[11];
  }

  lemma PiecesAt(ip: seq<byte>, head: seq<byte>, sum: seq<byte>, u: seq<byte>, o: seq<byte>, d: seq<byte>)
    requires |ip| == 20 && |head| == 16 && |sum| == 2 && |u| == 2
    ensures var p := ip + (head + sum + (u + o + d));
            && |p| == 40 + |o| + |d| && p[40..40 + |o|] == o && p[40 + |o|..] == d
            && p[38] == u[0] && p[39] == u[1] && forall k :: 0 <= k < 16 ==> p[20 + k] == head[k]
  {
  }

  lemma HeadByOffset(flow: Flow, number: uint32, offset: byte, flags: byte)
    ensures var h := TcpHead(flow, number, offset, flags);
            && Holds16(h, 0, flow.sport) && Holds16(h, 2, flow.dport)
            && Holds32(h, 4, number) && Holds32(h, 8, flow.ack)
            && h[12] == offset && h[13] == flags && h[14] == h[15] == 0xff
  {
    Put16Holds(flow.sport);
    Put16Holds(flow.dport);
    Put32Holds(number);
    Put32Holds(flow.ack);
    assert Put16(0xffff) == [0xff, 0xff];
    hide Put16, Put32;
  }

  /** The options: a TCP-MD5 option with an empty digest, or a timestamp far in the past, or none. */
  lemma OptionsByIndex(flow: Flow, s: Sending, id: uint16)
    requires flow.Valid() && s.Size() <= MAX_PACKET
    ensures var p, n := PacketBytes(flow, s, id), |s.payload|;
            && (s.poison.md5 ==>
                  |p| == 60 + n && p[40..42] == [19, 18] && p[42..58] == Zeros(16) && p[58..60] == [1, 1])
            && (!s.poison.md5 && s.poison.timestamps ==>
                  |p| == 52 + n && p[40..44] == [1, 1, 8, 10] && Holds32(p, 44, 1) && Holds32(p, 48, 0))
            && (!s.poison.md5 && !s.poison.timestamps ==> |p| == 40 + n)
  {
    var p, o := PacketBytes(flow, s, id), s.Options();
    PiecesAt(IpBytes(s.Size(), id, s.Ttl(), flow), TcpHead(flow, s.number, DataOffset(s), s.flags),
             Put16(StoredSum(flow, s)), [0, s.urgent], o, s.payload);
    hide PacketBytes;
    OptionsIn(p, s);
  }

  lemma OptionsIn(p: seq<byte>, s: Sending)
    requires |p| == s.Size() && p[40..40 + |s.Options()|] == s.Options()
    ensures s.poison.md5 ==> p[40..42] == [19, 18] && p[42..58] == Zeros(16) && p[58..60] == [1, 1]
    ensures !s.poison.md5 && s.poison.timestamps ==>
            p[40..44] == [1, 1, 8, 10] && Holds32(p, 44, 1) && Holds32(p, 48, 0)
  {
    var q := p[40..40 + |s.Options()|];
    assert forall k :: 0 <= k < |q| ==> p[40 + k] == q[k];
    if s.poison.md5 {
      assert p[40..42] == q[..2] && p[42..58] == q[2..18] && p[58..60] == q[18..20];
    } else if s.poison.timestamps {
      assert p[40..44] == q[..4];
    }
  }

  /** What the TCP checksum covers ahead of the header: both addresses, zero, the protocol and the length. */
  lemma PseudoByIndex(flow: Flow, length: uint16)
    requires flow.Valid()
    ensures var h := Pseudo(flow, length);
            h[..4] == flow.src && h[4..8] == flow.dst && h[8] == 0 && h[9] == 6 && Holds16(h, 10, length)
  {
    Put16Holds(length);
    hide Put16;
  }

  /** A damaged checksum is the right one with 0xbe and 0xef taken off bytewise, unless that leaves nothing. */
  lemma DamageByIndex(sum: uint16)
    ensures var b, d := Put16(sum), Put16(Checksum.Damaged(sum, Checksum.DAMAGE));
            if b == [0xbe, 0xef] then d == [0x12, 0x34] else d == [XorByte(b[0], 0xbe), XorByte(b[1], 0xef)]
  {
    var b := Put16(sum);
    WordBytes(b);
    DamagedWord(b[0], b[1]);
    hide Checksum.Damaged, Put16, XorByte;
    Put16Word(XorByte(b[0], 0xbe), XorByte(b[1], 0xef));
    Put16Word(0x12, 0x34);
  }

  lemma DamagedWord(hi: byte, lo: byte)
    ensures Checksum.Damaged(Word(hi, lo), Checksum.DAMAGE) ==
            if hi == 0xbe && lo == 0xef then 0x1234 else Word(XorByte(hi, 0xbe), XorByte(lo, 0xef))
  {
    hide Xor;
    XorWord(hi, lo, 0xbe, 0xef);
    XorSelf(Checksum.DAMAGE);
    Checksum.FlippingDiffers(Word(hi, lo), Checksum.DAMAGE);
  }

  lemma WordBytes(b: seq<byte>)
    requires |b| == 2
    ensures b == [b[0], b[1]] && Get16(b) == Word(b[0], b[1])
  {
  }

  lemma Put16Word(x: byte, y: byte)
    ensures Put16(Word(x, y)) == [x, y]
  {
  }
}
