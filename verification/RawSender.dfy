/**
  The hand-made TCP sender. A probe sends a decoy, then the trigger: whole, split and
  reordered, overlapping to the left, split around a decoy, or with an urgent byte inside.
  Each method is tied to Script, the list of sends a probe stands for.
  */
module RawSender {
  import opened Bits
  import Checksum
  import opened Buffers
  import opened TcpReceiver
  import opened TcpPacket

  const FILLER: byte := 0x0f

  /** The bytes to get through, and where the host name stands in them. */
  datatype Trigger = Trigger(payload: seq<byte>, sniOffset: int, sniLen: int)
  {
    predicate KnowsName() {
      sniLen > 1 && sniOffset > 0
    }
  }

  function Repeat<T>(n: nat, x: T): (s: seq<T>)
    ensures |s| == n && forall i :: 0 <= i < n ==> s[i] == x
  {
    seq(n, _ => x)
  }

  /** Filler with a decoy laid over its front. */
  function DecoyFill(n: nat, decoy: seq<byte>): (f: seq<byte>)
    ensures |f| == n
  {
    if |decoy| >= n then decoy[..n] else decoy + Repeat(n - |decoy|, FILLER)
  }

  lemma DecoyFillAt(n: nat, decoy: seq<byte>, i: nat)
    requires i < n
    ensures DecoyFill(n, decoy)[i] == if i < |decoy| then decoy[i] else 0x0f
  {
  }

  /** The cut inside the host name, or in the middle when its place is unknown. */
  function MidSplit(tr: Trigger): (m: int)
    ensures |tr.payload| >= 2 ==> 1 <= m < |tr.payload|
    ensures |tr.payload| >= 3 ==> 2 <= m
  {
    var n := |tr.payload|;
    var mid := if tr.KnowsName() then tr.sniOffset + tr.sniLen / 2 else n / 2;
    var mid := if mid < 2 then 2 else mid;
    if mid >= n then n - 1 else mid
  }

  function UrgentCut(tr: Trigger): (m: nat)
    ensures |tr.payload| >= 2 ==> 1 <= m < |tr.payload|
  {
    var mid := if tr.KnowsName() then tr.sniOffset + tr.sniLen / 2 else |tr.payload| / 2;
    if mid < 1 || mid >= |tr.payload| then |tr.payload| / 2 else mid
  }

  function BetweenCut(tr: Trigger): (m: nat)
    ensures |tr.payload| >= 2 ==> 1 <= m < |tr.payload|
  {
    var mid := if tr.KnowsName() then tr.sniOffset else 1;
    if mid >= |tr.payload| then 1 else mid
  }

  /** At least one copy. */
  function Copies(p: Poison): (n: nat)
    ensures n >= 1
  {
    if p.repeats < 1 then 1 else p.repeats
  }

  function Push(number: uint32, payload: seq<byte>, p: Poison): Sending {
    Sending(SeqAt(number, p.seqShift), PSH_ACK, 0, payload, p)
  }

  function Bare(base: uint32, off: int, payload: seq<byte>): Sending {
    Sending(SeqAt(base, off), PSH_ACK, 0, payload, Clean)
  }

  function Fake(base: uint32, tr: Trigger, p: Poison): Sending {
    Push(base, DecoyFill(2 * |tr.payload|, p.decoy), p)
  }

  function BetweenPoison(p: Poison): Poison {
    Clean.(badsum := p.badsum, ttl := p.ttl)
  }

  function FakePhase(base: uint32, tr: Trigger, p: Poison): seq<Sending> {
    if p.named && p.HasFake() then Repeat(Copies(p), Fake(base, tr, p)) else []
  }

  /** Out-of-band byte: the first part, one urgent byte, the rest. */
  function OobScript(base: uint32, tr: Trigger): seq<Sending>
    requires |tr.payload| >= 2
  {
    var mid := UrgentCut(tr);
    [Bare(base, 0, tr.payload[..mid]),
     Sending(SeqAt(base, mid), PSH_ACK + URG, 1, [FILLER], Clean),
     Bare(base, mid + 1, tr.payload[mid..])]
  }

  function BetweenFake(base: uint32, tr: Trigger, p: Poison): Sending
    requires |tr.payload| >= 2
  {
    Push(SeqAt(base, BetweenCut(tr)), DecoyFill(|tr.payload| - BetweenCut(tr), []), BetweenPoison(p))
  }

  /** The first piece, copies of a decoy over the rest, the rest. */
  function BetweenScript(base: uint32, tr: Trigger, p: Poison): seq<Sending>
    requires |tr.payload| >= 2
  {
    var mid := BetweenCut(tr);
    [Bare(base, 0, tr.payload[..mid])] + Repeat(Copies(p), BetweenFake(base, tr, p))
    + [Bare(base, mid, tr.payload[mid..])]
  }

  /** Data behind n octets of decoy that reach left of the stream. */
  function Overlapping(base: uint32, n: nat, decoy: seq<byte>, data: seq<byte>): Sending {
    Bare(base, -(n as int), DecoyFill(n, decoy) + data)
  }

  /** Tail, middle, and last the first byte, behind an overlap when there is one. */
  function ReversedScript(base: uint32, tr: Trigger, p: Poison): seq<Sending>
    requires |tr.payload| >= 2
  {
    var mid := MidSplit(tr);
    [Bare(base, mid, tr.payload[mid..]), Bare(base, 1, tr.payload[1..mid]),
     if p.seqovl > 0 then Overlapping(base, p.seqovl, p.decoy, tr.payload[..1]) else Bare(base, 0, tr.payload[..1])]
  }

  /** The sends that carry the trigger itself. */
  function TruthPhase(base: uint32, tr: Trigger, p: Poison): seq<Sending>
    requires |tr.payload| >= 2
  {
    if p.synData then [Sending(base, PSH_ACK + SYN, 0, tr.payload, Clean)]
    else if p.oob then OobScript(base, tr)
    else if p.fakeBetween then BetweenScript(base, tr, p)
    else if p.disorder then ReversedScript(base, tr, p)
    else if p.seqovl > 0 then [Overlapping(base, p.seqovl, p.decoy, tr.payload)]
    else [Bare(base, 0, tr.payload)]
  }

  function Script(base: uint32, tr: Trigger, p: Poison): seq<Sending>
    requires |tr.payload| >= 2
  {
    FakePhase(base, tr, p) + TruthPhase(base, tr, p)
  }

  /** The octets the probe means to put on the stream, in sequence order. */
  function Truth(tr: Trigger, p: Poison): seq<Octet>
    requires |tr.payload| >= 2
  {
    if p.oob && !p.synData then
      var mid := UrgentCut(tr);
      Plain(tr.payload[..mid]) + [Octet(FILLER, true)] + Plain(tr.payload[mid..])
    else Plain(tr.payload)
  }

  // ------------------------------------------------------------------ what the script looks like

  /** With the name inside the payload two of the cuts halve it, and the third stands right before it. */
  lemma CutsInName(tr: Trigger)
    requires tr.sniLen >= 2 && tr.sniOffset >= 1 && tr.sniOffset + tr.sniLen <= |tr.payload|
    ensures tr.sniOffset < MidSplit(tr) < tr.sniOffset + tr.sniLen
    ensures 2 * (MidSplit(tr) - tr.sniOffset) in {tr.sniLen, tr.sniLen - 1}
    ensures UrgentCut(tr) == MidSplit(tr) && BetweenCut(tr) == tr.sniOffset
  {
  }

  /** Without a name two cuts halve the payload, though not its first two bytes, and the third is one byte in. */
  lemma CutsWithoutName(tr: Trigger)
    requires |tr.payload| >= 2 && (tr.sniLen <= 1 || tr.sniOffset <= 0)
    ensures 2 * UrgentCut(tr) in {|tr.payload|, |tr.payload| - 1} && BetweenCut(tr) == 1
    ensures MidSplit(tr) == if |tr.payload| == 2 then 1 else if |tr.payload| == 3 then 2 else UrgentCut(tr)
  {
  }

  /** A name that is said to lie beyond the payload moves the cuts back into it. */
  lemma CutsBeyond(tr: Trigger)
    requires |tr.payload| >= 2 && tr.sniLen >= 2 && tr.sniOffset >= |tr.payload|
    ensures MidSplit(tr) == |tr.payload| - 1 && BetweenCut(tr) == 1
    ensures 2 * UrgentCut(tr) in {|tr.payload|, |tr.payload| - 1}
  {
  }

  /** As many decoys as asked for, at least one, when a named probe spoils them and places none of its own. */
  lemma DecoysSent(base: uint32, tr: Trigger, p: Poison)
    ensures p.named && !p.synData && !p.oob && !p.fakeBetween && (p.badsum || p.md5 || p.ttl > 0 || p.seqShift != 0) ==>
            && |FakePhase(base, tr, p)| >= 1 && (p.repeats >= 1 ==> |FakePhase(base, tr, p)| == p.repeats)
            && (p.repeats < 1 ==> |FakePhase(base, tr, p)| == 1)
    ensures !p.named || p.synData || p.oob || p.fakeBetween || !(p.badsum || p.md5 || p.ttl > 0 || p.seqShift != 0) ==>
            FakePhase(base, tr, p) == []
    ensures forall s :: s in FakePhase(base, tr, p) ==>
              s.number == (base + p.seqShift) % 0x1_0000_0000 && |s.payload| == 2 * |tr.payload| && s.poison == p
  {
  }

  /** Around a decoy there are the two pieces and copies of it. */
  lemma BetweenMembers(base: uint32, tr: Trigger, p: Poison, s: Sending)
    requires |tr.payload| >= 2 && s in BetweenScript(base, tr, p)
    ensures || s == Bare(base, 0, tr.payload[..BetweenCut(tr)]) || s == BetweenFake(base, tr, p)
            || s == Bare(base, BetweenCut(tr), tr.payload[BetweenCut(tr)..])
  {
    hide Bare, BetweenFake, BetweenCut;
    var script := BetweenScript(base, tr, p);
    var i :| 0 <= i < |script| && script[i] == s;
    assert 0 < i < |script| - 1 ==> s == Repeat(Copies(p), BetweenFake(base, tr, p))[i - 1];
  }

  /** Every send pushes and acknowledges; one carries SYN in one branch, one the urgent flag in another. */
  lemma FlagsSent(base: uint32, tr: Trigger, p: Poison, s: Sending)
    requires |tr.payload| >= 2 && s in Script(base, tr, p)
    ensures s.flags == if p.synData then 0x1a else if p.oob && s.payload == [0x0f] && s.urgent == 1 then 0x38 else 0x18
    ensures s.urgent > 0 ==> p.oob && !p.synData && s.payload == [0x0f] && s.urgent == 1
  {
    if p.fakeBetween && !p.oob && !p.synData {
      assert s in BetweenScript(base, tr, p);
      BetweenMembers(base, tr, p, s);
    }
  }

  /** The urgent byte stands between the two parts of the trigger, and the second part is numbered past it. */
  lemma OobByIndex(base: uint32, tr: Trigger, p: Poison)
    requires |tr.payload| >= 2 && p.oob && !p.synData
    ensures var script, cut := Script(base, tr, p), UrgentCut(tr);
            && |script| == 3
            && script[0].number == base && script[0].payload == tr.payload[..cut]
            && script[1].number == (base + cut) % 0x1_0000_0000 && script[1].payload == [0x0f] && script[1].urgent == 1
            && script[2].number == (base + cut + 1) % 0x1_0000_0000 && script[2].payload == tr.payload[cut..]
  {
    SeqAtZero(base);
    assert FakePhase(base, tr, p) == [];
  }

  /** The decoys go between the two parts of the trigger, over the second, with sum and TTL spoiled only. */
  lemma BetweenByIndex(base: uint32, tr: Trigger, p: Poison)
    requires |tr.payload| >= 2 && p.fakeBetween && !p.oob && !p.synData
    ensures var script, cut := Script(base, tr, p), BetweenCut(tr);
            && (p.repeats >= 1 ==> |script| == p.repeats + 2) && (p.repeats < 1 ==> |script| == 3)
            && script[0].number == base && script[0].payload == tr.payload[..cut]
            && script[|script| - 1].number == (base + cut) % 0x1_0000_0000
            && script[|script| - 1].payload == tr.payload[cut..]
            && forall i :: 1 <= i < |script| - 1 ==>
                 && script[i].number == (base + cut) % 0x1_0000_0000
                 && |script[i].payload| == |tr.payload| - cut
                 && script[i].poison.badsum == p.badsum && script[i].poison.ttl == p.ttl
                 && !script[i].poison.md5 && !script[i].poison.timestamps && !script[i].poison.ipIdZero
  {
    SeqAtZero(base);
    SeqAtZero(SeqAt(base, BetweenCut(tr)));
    assert Script(base, tr, p) == BetweenScript(base, tr, p);
    EndsAndMiddle(Bare(base, 0, tr.payload[..BetweenCut(tr)]), Copies(p), BetweenFake(base, tr, p),
                  Bare(base, BetweenCut(tr), tr.payload[BetweenCut(tr)..]));
    hide BetweenCut, Repeat;
  }

  lemma EndsAndMiddle<T>(first: T, n: nat, x: T, last: T)
    ensures var s := [first] + Repeat(n, x) + [last];
            && |s| == n + 2 && s[0] == first && s[|s| - 1] == last && forall i :: 1 <= i < |s| - 1 ==> s[i] == x
  {
  }

  /** An overlap reaches as far left of its data as asked for. */
  lemma OverlapByIndex(base: uint32, tr: Trigger, p: Poison)
    requires |tr.payload| >= 2 && p.seqovl > 0 && !p.fakeBetween && !p.oob && !p.synData
    ensures var script, n := Script(base, tr, p), p.seqovl;
            var last := script[|script| - 1];
            && last.number == (base - n) % 0x1_0000_0000
            && last.payload[n..] == (if p.disorder then tr.payload[..1] else tr.payload)
            && forall i :: 0 <= i < n ==> last.payload[i] == if i < |p.decoy| then p.decoy[i] else 0x0f
  {
    var script, n := Script(base, tr, p), p.seqovl;
    var data := if p.disorder then tr.payload[..1] else tr.payload;
    assert script[|script| - 1] == Overlapping(base, n, p.decoy, data);
    assert (DecoyFill(n, p.decoy) + data)[n..] == data;
  }

  // ------------------------------------------------------------------ the sender

  /** The bytes of s, with any IP identification unless it is to be zero. */
  predicate IsPacket(flow: Flow, bytes: seq<byte>, s: Sending)
    requires flow.Valid()
  {
    s.Size() <= MAX_PACKET && exists id: uint16 :: (s.poison.ipIdZero ==> id == 0) && bytes == PacketBytes(flow, s, id)
  }

  /** A probe that is to carry no identification carries none. */
  lemma ZeroIdentification(flow: Flow, bytes: seq<byte>, s: Sending)
    requires flow.Valid() && IsPacket(flow, bytes, s) && s.poison.ipIdZero
    ensures bytes[4] == bytes[5] == 0
  {
    IpByIndex(flow, s, 0);
  }

  method MakeDecoy(n: nat, decoy: seq<byte>) returns (b: array<byte>)
    ensures fresh(b) && b[..] == DecoyFill(n, decoy)
  {
    b := new byte[n];
    for i := 0 to n
      invariant forall k :: 0 <= k < i ==> b[k] == FILLER
    {
      b[i] := FILLER;
    }
    var m := if |decoy| < n then |decoy| else n;
    Write(b, 0, decoy[..m]);
  }

  /** The checksum of a segment under the pseudo header of flow. */
  method SegmentSum(flow: Flow, front: seq<byte>, back: seq<byte>) returns (c: uint16)
    requires flow.Valid() && |front| == 16
    ensures 18 + |back| <= 0xffff ==> c == Checksum.FilledField(Pseudo(flow, Truncate16(18 + |back|)) + front, back)
  {
    c := ZeroedSum(Pseudo(flow, Truncate16(18 + |back|)) + front, back);
  }

  /** Lays the twenty bytes of the IPv4 header, checksum last, into the front of pkt. */
  method FillIp(pkt: array<byte>, flow: Flow, s: Sending, id: uint16) returns (ghost ip: seq<byte>)
    requires flow.Valid() && pkt.Length == s.Size() && pkt[..] == Zeros(pkt.Length)
    modifies pkt
    ensures ip == IpBytes(Truncate16(s.Size()), id, s.Ttl(), flow)
    ensures pkt[..] == ip + Zeros(pkt.Length - 20)
  {
    var n, length, ttl := pkt.Length, Truncate16(pkt.Length), s.Ttl();
    ghost var head := IpHead(length, id, ttl);
    assert pkt[..] == [] + Zeros(n);
    AppendZeroed(pkt, 0, IpHead(length, id, ttl), [], n);
    assert [] + head == head;
    FillIpRest(pkt, flow.src, flow.dst, head, n);
    ip := IpBytes(length, id, ttl, flow);
  }

  /** Lays the segment behind the IPv4 header, its checksum still zero. */
  method FillTcp(pkt: array<byte>, flow: Flow, s: Sending, ghost ip: seq<byte>)
    requires flow.Valid() && pkt.Length == s.Size() && |ip| == 20 && pkt[..] == ip + Zeros(pkt.Length - 20)
    requires s.urgent == 0
    modifies pkt
    ensures pkt[..] == (ip + TcpHead(flow, s.number, DataOffset(s), s.flags)) + Zeros(2) + TcpTail(s)
  {
    var o, p, n := s.Options(), s.payload, pkt.Length;
    var head := TcpHead(flow, s.number, DataOffset(s), s.flags);
    AppendZeroed(pkt, 20, head, ip, n - 20);
    Absorb(ip + head, n - 36, 4);
    AppendZeroed(pkt, 40, o, ip + head + Zeros(4), n - 40);
    AppendZeroed(pkt, 40 + |o|, p, ip + head + Zeros(4) + o, |p|);
    Regroup(ip, head, o, p);
  }

  lemma Regroup(ip: seq<byte>, head: seq<byte>, o: seq<byte>, p: seq<byte>)
    ensures (ip + head + Zeros(4) + o + p) + Zeros(0) == (ip + head) + Zeros(2) + ([0, 0] + o + p)
  {
  }

  lemma SegmentSlices(p: seq<byte>, ip: seq<byte>, head: seq<byte>, field: seq<byte>, tail: seq<byte>)
    requires p == (ip + head) + field + tail && |ip| == 20 && |head| == 16 && |field| == 2
    ensures p[20..36] == head && p[36..38] == field && p[38..] == tail
    ensures p == ip + (head + field + tail)
  {
  }

  /** The checksum to store for s, given the bytes around its field. */
  method SumToStore(flow: Flow, s: Sending, head: seq<byte>, tail: seq<byte>) returns (sum: uint16)
    requires flow.Valid()
    requires head == TcpHead(flow, s.number, DataOffset(s), s.flags) && tail == TcpTail(s)
    ensures s.Size() <= MAX_PACKET ==> sum == StoredSum(flow, s)
  {
    sum := SegmentSum(flow, head, tail);
    assert s.Size() <= MAX_PACKET ==> Truncate16(18 + |tail|) == s.Size() - 20;
    sum := Spoiled(sum, s.poison);
  }

  /** Lays out segment and checksum behind an IPv4 header. */
  method FillSegment(pkt: array<byte>, flow: Flow, s: Sending, ghost ip: seq<byte>) returns (sum: uint16)
    requires flow.Valid() && pkt.Length == s.Size() && |ip| == 20 && pkt[..] == ip + Zeros(pkt.Length - 20)
    requires s.urgent == 0
    modifies pkt
    ensures pkt[..] == (ip + TcpHead(flow, s.number, DataOffset(s), s.flags)) + Put16(sum) + TcpTail(s)
    ensures s.Size() <= MAX_PACKET ==> sum == StoredSum(flow, s)
  {
    ghost var head, tail := TcpHead(flow, s.number, DataOffset(s), s.flags), TcpTail(s);
    FillTcp(pkt, flow, s, ip);
    SegmentSlices(pkt[..], ip, head, Zeros(2), tail);
    sum := SumToStore(flow, s, pkt[20..36], pkt[38..]);
    Patch(pkt, 36, sum, ip + head, Zeros(2), tail);
  }

  method FillPacket(pkt: array<byte>, flow: Flow, s: Sending, id: uint16)
    requires flow.Valid() && s.urgent == 0 && pkt.Length == s.Size() && pkt[..] == Zeros(pkt.Length)
    modifies pkt
    ensures s.Size() <= MAX_PACKET ==> pkt[..] == PacketBytes(flow, s, id)
  {
    ghost var ip := FillIp(pkt, flow, s, id);
    var sum := FillSegment(pkt, flow, s, ip);
    if s.Size() <= MAX_PACKET {
      PacketIs(flow, s, id, ip, sum);
    }
  }

  lemma PacketIs(flow: Flow, s: Sending, id: uint16, ip: seq<byte>, sum: uint16)
    requires flow.Valid() && s.Size() <= MAX_PACKET
    requires ip == IpBytes(Truncate16(s.Size()), id, s.Ttl(), flow) && sum == StoredSum(flow, s)
    ensures (ip + TcpHead(flow, s.number, DataOffset(s), s.flags)) + Put16(sum) + TcpTail(s) == PacketBytes(flow, s, id)
  {
    var head, tail := TcpHead(flow, s.number, DataOffset(s), s.flags), TcpTail(s);
    SegmentSlices((ip + head) + Put16(sum) + tail, ip, head, Put16(sum), tail);
  }

  method BuildPacket(flow: Flow, s: Sending, id: uint16) returns (pkt: array<byte>)
    requires flow.Valid() && s.urgent == 0
    ensures fresh(pkt) && pkt.Length == s.Size()
    ensures s.Size() <= MAX_PACKET ==> pkt[..] == PacketBytes(flow, s, id)
  {
    pkt := new byte[s.Size()](_ => 0);
    assert pkt[..] == Zeros(pkt.Length);
    FillPacket(pkt, flow, s, id);
  }

  lemma BeforeUrgent(ip: seq<byte>, head: seq<byte>, field: seq<byte>, urgent: seq<byte>, o: seq<byte>, d: seq<byte>)
    ensures ip + (head + field + (urgent + o + d)) == (ip + head + field) + urgent + (o + d)
  {
  }

  lemma AfterUrgent(ip: seq<byte>, head: seq<byte>, field: seq<byte>, urgent: seq<byte>, o: seq<byte>, d: seq<byte>)
    ensures (ip + head + field) + urgent + (o + d) == (ip + head) + field + (urgent + o + d)
  {
  }

  /** Sets the urgent pointer behind the checksum of a laid-out segment. */
  method StoreUrgent(
    pkt: array<byte>, urgent: byte, ghost ip: seq<byte>, ghost head: seq<byte>, ghost field: seq<byte>,
    ghost o: seq<byte>, ghost d: seq<byte>)
    requires |ip| == 20 && |head| == 16 && |field| == 2
    requires pkt[..] == ip + (head + field + ([0, 0] + o + d))
    modifies pkt
    ensures pkt[..] == (ip + head) + field + ([0, urgent] + o + d)
  {
    BeforeUrgent(ip, head, field, [0, 0], o, d);
    Rewritten(ip + head + field, [0, 0], o + d);
    assert pkt.Length == |pkt[..]| >= 40;
    Write(pkt, 38, [0, urgent]);
    AfterUrgent(ip, head, field, [0, urgent], o, d);
  }

  /** Computes the checksum of a marked segment and stores it. */
  method RestoreSum(
    pkt: array<byte>, flow: Flow, s: Sending, ghost ip: seq<byte>, ghost head: seq<byte>, ghost field: seq<byte>,
    ghost tail: seq<byte>)
    returns (sum: uint16)
    requires flow.Valid() && s.Size() <= MAX_PACKET && |ip| == 20 && |field| == 2
    requires head == TcpHead(flow, s.number, DataOffset(s), s.flags) && tail == TcpTail(s)
    requires pkt[..] == (ip + head) + field + tail
    modifies pkt
    ensures pkt[..] == ip + (head + Put16(sum) + tail)
    ensures sum == StoredSum(flow, s)
  {
    SegmentSlices(pkt[..], ip, head, field, tail);
    assert pkt.Length == |pkt[..]|;
    sum := SumToStore(flow, s, pkt[20..36], pkt[38..]);
    Patch(pkt, 36, sum, ip + head, field, tail);
    SegmentSlices(pkt[..], ip, head, Put16(sum), tail);
  }

  /** Sets the urgent pointer of a laid-out segment and computes its checksum anew. */
  method MarkUrgent(pkt: array<byte>, flow: Flow, s: Sending, ghost ip: seq<byte>, ghost field: seq<byte>)
    returns (sum: uint16)
    requires flow.Valid() && s.Size() <= MAX_PACKET && |ip| == 20 && |field| == 2
    requires pkt[..] ==
             ip + (TcpHead(flow, s.number, DataOffset(s), s.flags) + field + ([0, 0] + s.Options() + s.payload))
    modifies pkt
    ensures pkt[..] == ip + (TcpHead(flow, s.number, DataOffset(s), s.flags) + Put16(sum) + TcpTail(s))
    ensures sum == StoredSum(flow, s)
  {
    ghost var head := TcpHead(flow, s.number, DataOffset(s), s.flags);
    StoreUrgent(pkt, s.urgent, ip, head, field, s.Options(), s.payload);
    sum := RestoreSum(pkt, flow, s, ip, head, field, TcpTail(s));
  }

  lemma Rewritten(front: seq<byte>, mid: seq<byte>, back: seq<byte>)
    ensures (front + mid + back)[..|front|] == front
    ensures (front + mid + back)[|front| + |mid|..] == back
  {
  }

  /** The kernel takes s as the n-th packet handed to it. */
  predicate Goes(takes: nat -> bool, n: nat, s: Sending) {
    s.Size() <= MAX_PACKET && takes(n)
  }

  ghost predicate AllGo(takes: nat -> bool, first: nat, script: seq<Sending>, k: nat)
    requires k <= |script|
  {
    forall i :: 0 <= i < k ==> Goes(takes, first + i, script[i])
  }

  /**
    Handing over the packets of script, the first of them as number first, took the log from before to after and the
    count to next: all of them went, or those before the first that did not go.
    */
  ghost predicate Ran(
    takes: nat -> bool, first: nat, next: nat, before: seq<Sending>, after: seq<Sending>, script: seq<Sending>,
    ok: bool)
  {
    if ok then
      next == first + |script| && after == before + script && AllGo(takes, first, script, |script|)
    else
      && first < next <= first + |script|
      && var k := next - first - 1;
         after == before + script[..k] && AllGo(takes, first, script, k) && !Goes(takes, first + k, script[k])
  }

  /** What ran is determined by the script, the kernel and where the count stood. */
  lemma RanOneWay(
    takes: nat -> bool, first: nat, before: seq<Sending>, script: seq<Sending>,
    next: nat, after: seq<Sending>, ok: bool, next': nat, after': seq<Sending>, ok': bool)
    requires Ran(takes, first, next, before, after, script, ok)
    requires Ran(takes, first, next', before, after', script, ok')
    ensures next == next' && after == after' && ok == ok'
  {
    if !ok {
      assert !Goes(takes, next - 1, script[next - first - 1]);
    }
    if !ok' {
      assert !Goes(takes, next' - 1, script[next' - first - 1]);
    }
  }

  lemma Grow(before: seq<Sending>, script: seq<Sending>, k: nat, x: Sending)
    requires k < |script| && x == script[k]
    ensures before + script[..k] + [x] == before + script[..k + 1]
  {
  }

  /** One script after another. */
  lemma Chained(
    takes: nat -> bool, first: nat, middle: nat, next: nat,
    before: seq<Sending>, a: seq<Sending>, b: seq<Sending>, between: seq<Sending>, after: seq<Sending>, ok: bool)
    requires Ran(takes, first, middle, before, between, a, true) && Ran(takes, middle, next, between, after, b, ok)
    ensures Ran(takes, first, next, before, after, a + b, ok)
  {
    hide Goes, AllGo;
    if ok {
      Regrouped(before, a, b, |b|);
      AllGoOn(takes, first, a, b, |b|);
    } else {
      Regrouped(before, a, b, next - middle - 1);
      AllGoOn(takes, first, a, b, next - middle - 1);
    }
  }

  lemma Regrouped(before: seq<Sending>, a: seq<Sending>, b: seq<Sending>, k: nat)
    requires k <= |b|
    ensures before + a + b[..k] == before + (a + b)[..|a| + k]
    ensures b[..|b|] == b && (a + b)[..|a| + |b|] == a + b
    ensures k < |b| ==> (a + b)[|a| + k] == b[k]
  {
    assert (a + b)[..|a| + k] == a + b[..k];
  }

  lemma AllGoOn(takes: nat -> bool, first: nat, a: seq<Sending>, b: seq<Sending>, k: nat)
    requires k <= |b| && AllGo(takes, first, a, |a|) && AllGo(takes, first + |a|, b, k)
    ensures AllGo(takes, first, a + b, |a| + k)
  {
    forall i | 0 <= i < |a| + k
      ensures Goes(takes, first + i, (a + b)[i])
    {
      if i >= |a| {
        assert Goes(takes, first + |a| + (i - |a|), b[i - |a|]);
      }
    }
  }

  /** A script that stopped stops whatever was to follow. */
  lemma Stopped(
    takes: nat -> bool, first: nat, next: nat, before: seq<Sending>, a: seq<Sending>, b: seq<Sending>,
    after: seq<Sending>)
    requires Ran(takes, first, next, before, after, a, false)
    ensures Ran(takes, first, next, before, after, a + b, false)
  {
    var k := next - first - 1;
    assert (a + b)[..k] == a[..k];
  }

  /** An established hand-made connection: sent holds what went out, log what each packet was meant to be. */
  class RawConn {
    const flow: Flow
    /** Whether the kernel takes the n-th packet handed to it. */
    const takes: nat -> bool
    /** The random IP identification of the n-th packet. */
    const ids: nat -> uint16
    var number: uint32
    var sent: seq<seq<byte>>
    var attempts: nat
    ghost var log: seq<Sending>

    ghost predicate Valid()
      reads this
    {
      && flow.Valid()
      && |sent| == |log|
      && forall i :: 0 <= i < |sent| ==> IsPacket(flow, sent[i], log[i])
    }

    constructor (flow: Flow, takes: nat -> bool, ids: nat -> uint16, number: uint32)
      requires flow.Valid()
      ensures Valid() && log == [] && attempts == 0
      ensures this.flow == flow && this.takes == takes && this.ids == ids && this.number == number
    {
      this.flow, this.takes, this.ids, this.number := flow, takes, ids, number;
      sent, attempts, log := [], 0, [];
    }

    /** Hands one packet to the kernel, which never takes more than an IPv4 packet holds. */
    method Transmit(pkt: array<byte>, ghost s: Sending) returns (ok: bool)
      requires Valid() && pkt.Length == s.Size()
      requires s.Size() <= MAX_PACKET ==> IsPacket(flow, pkt[..], s)
      modifies this`sent, this`attempts, this`log
      ensures Valid() && attempts == old(attempts) + 1 && (ok <==> Goes(takes, old(attempts), s))
      ensures log == if ok then old(log) + [s] else old(log)
      ensures sent == if ok then old(sent) + [pkt[..]] else old(sent)
    {
      ok := pkt.Length <= MAX_PACKET && takes(attempts);
      attempts := attempts + 1;
      if ok {
        sent, log := sent + [pkt[..]], log + [s];
      }
    }

    /** Sends one segment; the poison's shift moves its number, never the connection's. */
    method Send(payload: seq<byte>, flags: byte, p: Poison) returns (ok: bool)
      requires Valid()
      modifies this`sent, this`attempts, this`log
      ensures Valid()
      ensures attempts == old(attempts) + 1
      ensures ok <==> Goes(takes, old(attempts), Sending(SeqAt(number, p.seqShift), flags, 0, payload, p))
      ensures log == if ok then old(log) + [Sending(SeqAt(number, p.seqShift), flags, 0, payload, p)] else old(log)
    {
      var s := Sending(SeqAt(number, p.seqShift), flags, 0, payload, p);
      var id := if p.ipIdZero then 0 else ids(attempts);
      var pkt := BuildPacket(flow, s, id);
      assert s.Size() <= MAX_PACKET ==> IsPacket(flow, pkt[..], s);
      ok := Transmit(pkt, s);
    }

    /** Sends one byte as urgent data: the pointer stands just behind it. */
    method SendUrgent(b: byte) returns (ok: bool)
      requires Valid()
      modifies this`sent, this`attempts, this`log
      ensures Valid()
      ensures attempts == old(attempts) + 1
      ensures ok <==> Goes(takes, old(attempts), Sending(number, PSH_ACK + URG, 1, [b], Clean))
      ensures log == if ok then old(log) + [Sending(number, PSH_ACK + URG, 1, [b], Clean)] else old(log)
    {
      hide Put16, StoredSum, IpBytes, TcpHead, Pseudo;
      var plain := Sending(number, PSH_ACK + URG, 0, [b], Clean);
      var marked := plain.(urgent := 1);
      var pkt := BuildPacket(flow, plain, ids(attempts));
      ghost var ip := IpBytes(plain.Size(), ids(attempts), plain.Ttl(), flow);
      ghost var field := Put16(StoredSum(flow, plain));
      var sum := MarkUrgent(pkt, flow, marked, ip, field);
      assert pkt[..] == PacketBytes(flow, marked, ids(attempts));
      assert IsPacket(flow, pkt[..], marked);
      ok := Transmit(pkt, marked);
    }

    /** Sends count copies of one spoiled segment, each numbered from the connection's number. */
    method SendCopies(payload: seq<byte>, p: Poison, count: nat) returns (ok: bool)
      requires Valid()
      modifies this`sent, this`attempts, this`log
      ensures Valid()
      ensures Ran(takes, old(attempts), attempts, old(log), log, Repeat(count, Push(number, payload, p)), ok)
    {
      hide IsPacket, Goes;
      ghost var before, first, script := log, attempts, Repeat(count, Push(number, payload, p));
      assert before + script[..0] == before;
      ok := true;
      for i := 0 to count
        invariant At(before, first, script, i)
      {
        ok := Send(payload, PSH_ACK, p);
        Grow(before, script, i, script[i]);
        if !ok {
          return;
        }
      }
      assert script[..count] == script;
    }

    method SendClean(payload: seq<byte>, flags: byte) returns (ok: bool)
      requires Valid()
      modifies this`sent, this`attempts, this`log
      ensures Valid()
      ensures attempts == old(attempts) + 1
      ensures ok <==> Goes(takes, old(attempts), Sending(number, flags, 0, payload, Clean))
      ensures log == if ok then old(log) + [Sending(number, flags, 0, payload, Clean)] else old(log)
    {
      SeqAtZero(number);
      ok := Send(payload, flags, Clean);
    }

    /** Moves to off octets after base and sends one clean segment. */
    method SendAt(base: uint32, off: int, payload: seq<byte>) returns (ok: bool)
      requires Valid()
      modifies this
      ensures Valid()
      ensures attempts == old(attempts) + 1 && (ok <==> Goes(takes, old(attempts), Bare(base, off, payload)))
      ensures log == if ok then old(log) + [Bare(base, off, payload)] else old(log)
    {
      number := SeqAt(base, off);
      ok := SendClean(payload, PSH_ACK);
    }

    /** The sends of script are out up to, and not including, the k-th. */
    ghost predicate At(before: seq<Sending>, first: nat, script: seq<Sending>, k: nat)
      reads this
    {
      && Valid() && k <= |script| && log == before + script[..k]
      && attempts == first + k && AllGo(takes, first, script, k)
    }

    /** Script ended at its k-th send, which did not go, or with its last. */
    ghost predicate Over(before: seq<Sending>, first: nat, script: seq<Sending>, ok: bool)
      reads this
    {
      Valid() && Ran(takes, first, attempts, before, log, script, ok)
    }

    /** Sends the k-th segment of script, a clean one. */
    method SendNext(
      base: uint32, off: int, payload: seq<byte>, ghost before: seq<Sending>, ghost first: nat,
      ghost script: seq<Sending>, ghost k: nat)
      returns (ok: bool)
      requires At(before, first, script, k) && k < |script| && script[k] == Bare(base, off, payload)
      modifies this
      ensures ok ==> At(before, first, script, k + 1)
      ensures !ok || k + 1 == |script| ==> Over(before, first, script, ok)
    {
      hide Goes, IsPacket;
      ok := SendAt(base, off, payload);
      Grow(before, script, k, script[k]);
      assert k + 1 == |script| ==> script[..k + 1] == script;
    }

    method SendUrgentNext(
      base: uint32, off: int, ghost before: seq<Sending>, ghost first: nat,
      ghost script: seq<Sending>, ghost k: nat)
      returns (ok: bool)
      requires At(before, first, script, k) && k < |script|
      requires script[k] == Sending(SeqAt(base, off), PSH_ACK + URG, 1, [FILLER], Clean)
      modifies this
      ensures ok ==> At(before, first, script, k + 1)
      ensures !ok || k + 1 == |script| ==> Over(before, first, script, ok)
    {
      hide Goes, IsPacket;
      number := SeqAt(base, off);
      ok := SendUrgent(FILLER);
      Grow(before, script, k, script[k]);
      assert k + 1 == |script| ==> script[..k + 1] == script;
    }

    method SendOverlapNext(
      base: uint32, p: Poison, data: seq<byte>, ghost before: seq<Sending>, ghost first: nat,
      ghost script: seq<Sending>, ghost k: nat)
      returns (ok: bool)
      requires At(before, first, script, k) && k < |script| && script[k] == Overlapping(base, p.seqovl, p.decoy, data)
      modifies this
      ensures ok ==> At(before, first, script, k + 1)
      ensures !ok || k + 1 == |script| ==> Over(before, first, script, ok)
    {
      var junk := MakeDecoy(p.seqovl, p.decoy);
      var bytes := junk[..] + data;
      assert bytes == DecoyFill(p.seqovl, p.decoy) + data;
      ok := SendNext(base, -(p.seqovl as int), bytes, before, first, script, k);
    }

    method SendOob(tr: Trigger) returns (ok: bool)
      requires Valid() && |tr.payload| >= 2
      modifies this
      ensures Valid()
      ensures Ran(takes, old(attempts), attempts, old(log), log, OobScript(old(number), tr), ok)
    {
      var base, mid := number, UrgentCut(tr);
      ghost var before, first, script := log, attempts, OobScript(base, tr);
      assert before + script[..0] == before;
      ok := SendNext(base, 0, tr.payload[..mid], before, first, script, 0);
      if !ok { return; }
      ok := SendUrgentNext(base, mid, before, first, script, 1);
      if !ok { return; }
      ok := SendNext(base, mid + 1, tr.payload[mid..], before, first, script, 2);
    }

    method SendAroundFake(tr: Trigger, p: Poison) returns (ok: bool)
      requires Valid() && |tr.payload| >= 2
      modifies this
      ensures Valid()
      ensures Ran(takes, old(attempts), attempts, old(log), log, BetweenScript(old(number), tr, p), ok)
    {
      hide BetweenCut, Copies, DecoyFill, BetweenPoison, Ran, AllGo, Goes, IsPacket;
      var base, mid := number, BetweenCut(tr);
      ghost var before, first := log, attempts;
      ghost var a, c := [Bare(base, 0, tr.payload[..mid])], [Bare(base, mid, tr.payload[mid..])];
      ghost var b := Repeat(Copies(p), BetweenFake(base, tr, p));
      ok := SendOne(base, 0, tr.payload[..mid]);
      if !ok {
        Stopped(takes, first, attempts, before, a, b, log);
        Stopped(takes, first, attempts, before, a + b, c, log);
        return;
      }
      var fake := MakeDecoy(|tr.payload| - mid, []);
      number := SeqAt(base, mid);
      ghost var middle, between := attempts, log;
      ok := SendCopies(fake[..], BetweenPoison(p), Copies(p));
      Chained(takes, first, middle, attempts, before, a, b, between, log, ok);
      if !ok {
        Stopped(takes, first, attempts, before, a + b, c, log);
        return;
      }
      middle, between := attempts, log;
      ok := SendOne(base, mid, tr.payload[mid..]);
      Chained(takes, first, middle, attempts, before, a + b, c, between, log, ok);
    }

    /** A script of one clean segment. */
    method SendOne(base: uint32, off: int, payload: seq<byte>) returns (ok: bool)
      requires Valid()
      modifies this
      ensures Valid() && Ran(takes, old(attempts), attempts, old(log), log, [Bare(base, off, payload)], ok)
    {
      ghost var script := [Bare(base, off, payload)];
      ok := SendAt(base, off, payload);
      assert script[..0] == [] && old(log) + [] == old(log);
    }

    method SendReversed(tr: Trigger, p: Poison) returns (ok: bool)
      requires Valid() && |tr.payload| >= 2
      modifies this
      ensures Valid()
      ensures Ran(takes, old(attempts), attempts, old(log), log, ReversedScript(old(number), tr, p), ok)
    {
      var base, mid := number, MidSplit(tr);
      ghost var before, first, script := log, attempts, ReversedScript(base, tr, p);
      assert before + script[..0] == before;
      ok := SendNext(base, mid, tr.payload[mid..], before, first, script, 0);
      if !ok { return; }
      ok := SendNext(base, 1, tr.payload[1..mid], before, first, script, 1);
      if !ok { return; }
      if p.seqovl > 0 {
        ok := SendOverlapNext(base, p, tr.payload[..1], before, first, script, 2);
      } else {
        ok := SendNext(base, 0, tr.payload[..1], before, first, script, 2);
      }
    }

    method SendTruth(tr: Trigger, p: Poison) returns (ok: bool)
      requires Valid() && |tr.payload| >= 2
      modifies this
      ensures Valid()
      ensures Ran(takes, old(attempts), attempts, old(log), log, TruthPhase(old(number), tr, p), ok)
    {
      var base := number;
      ghost var before, first, script := log, attempts, TruthPhase(base, tr, p);
      assert before + script[..0] == before;
      if p.synData {
        ok := SendClean(tr.payload, PSH_ACK + SYN);
      } else if p.oob {
        ok := SendOob(tr);
      } else if p.fakeBetween {
        ok := SendAroundFake(tr, p);
      } else if p.disorder {
        ok := SendReversed(tr, p);
      } else if p.seqovl > 0 {
        ok := SendOverlapNext(base, p, tr.payload, before, first, script, 0);
      } else {
        ok := SendNext(base, 0, tr.payload, before, first, script, 0);
      }
    }

    /** The decoys that go ahead of the trigger; they do not move the connection's number. */
    method SendFakes(tr: Trigger, p: Poison) returns (ok: bool)
      requires Valid()
      modifies this`sent, this`attempts, this`log
      ensures Valid() && Ran(takes, old(attempts), attempts, old(log), log, FakePhase(number, tr, p), ok)
    {
      ok := true;
      if p.named && p.HasFake() {
        var fake := MakeDecoy(2 * |tr.payload|, p.decoy);
        ok := SendCopies(fake[..], p, Copies(p));
      }
    }

    /** One probe, up to the point where it waits for the answer. */
    method Probe(tr: Trigger, p: Poison) returns (ok: bool)
      requires Valid() && |tr.payload| >= 2
      modifies this
      ensures Valid()
      ensures Ran(takes, old(attempts), attempts, old(log), log, Script(old(number), tr, p), ok)
      ensures ok ==> number == SeqAt(old(number), |Truth(tr, p)|)
    {
      var base := number;
      hide Ran;
      ghost var before, first := log, attempts;
      ok := SendFakes(tr, p);
      ghost var between := log;
      if !ok {
        Stopped(takes, first, attempts, before, FakePhase(base, tr, p), TruthPhase(base, tr, p), log);
        return;
      }
      ghost var middle := attempts;
      ok := SendTruth(tr, p);
      Chained(
        takes, first, middle, attempts, before, FakePhase(base, tr, p), TruthPhase(base, tr, p), between, log, ok);
      number := SeqAt(base, |tr.payload| + if p.oob && !p.synData then 1 else 0);
    }
  }
}
