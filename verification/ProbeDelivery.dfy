/**
  What a probe achieves. The peer drops the decoys, so it reads exactly the trigger; an
  observer that takes the decoys reads them instead of the trigger.
  */
module ProbeDelivery {
  import opened Bits
  import opened TcpReceiver
  import opened TcpPacket
  import opened RawSender
  import opened Options

  /** The segments a peer takes out of the packets that reach it, in their order. */
  function Heard(peer: Peer, flow: Flow, packets: seq<seq<byte>>): (ss: seq<Segment>)
    requires flow.Valid()
  {
    if packets == [] then []
    else
      var rest := Heard(peer, flow, packets[1..]);
      match Decode(peer, flow, packets[0])
      case Some(s) => [s] + rest
      case None => rest
  }

  /** The segments of a script a peer sees, in script order. */
  function SeenOf(peer: Peer, script: seq<Sending>): (ss: seq<Segment>) {
    if script == [] then []
    else (if Seen(peer, script[0]) then [SegmentOf(script[0])] else []) + SeenOf(peer, script[1..])
  }

  /** The packets of script, with whatever IP identifications. */
  predicate PacketsOf(flow: Flow, packets: seq<seq<byte>>, script: seq<Sending>)
    requires flow.Valid()
  {
    |packets| == |script| && forall i :: 0 <= i < |script| ==> IsPacket(flow, packets[i], script[i])
  }

  /** The network may reorder and repeat packets, but brings everything the peer can see. */
  ghost predicate Brings(peer: Peer, flow: Flow, packets: seq<seq<byte>>, arrivals: seq<seq<byte>>)
    requires flow.Valid()
  {
    && (forall x :: x in arrivals ==> x in packets)
    && (forall x :: x in packets && Decode(peer, flow, x).Some? ==> x in arrivals)
  }

  /** A decoy is of no effect: it never arrives, is refused, or lies left of every window. */
  predicate Harmless(peer: Peer, s: Sending) {
    !Seen(peer, s) || -(MAX_WINDOW as int) <= s.poison.seqShift <= -0xffff
  }

  /** The decoys of a probe have no effect on the peer. */
  predicate DecoysDie(peer: Peer, base: uint32, tr: Trigger, p: Poison)
    requires |tr.payload| >= 2
  {
    && (p.named && p.HasFake() ==> Harmless(peer, Fake(base, tr, p)))
    && (p.fakeBetween && !p.synData && !p.oob ==> !Seen(peer, BetweenFake(base, tr, p)))
  }

  lemma {:induction false} HeardMember(peer: Peer, flow: Flow, packets: seq<seq<byte>>, s: Segment)
    requires flow.Valid()
    ensures s in Heard(peer, flow, packets) <==> exists x :: x in packets && Decode(peer, flow, x) == Some(s)
  {
    if packets != [] {
      HeardMember(peer, flow, packets[1..], s);
      if x :| x in packets && Decode(peer, flow, x) == Some(s) {
        assert x == packets[0] || x in packets[1..];
      }
    }
  }

  // ------------------------------------------------------------------ genuine segments

  ghost predicate Good(s: Sending, base: uint32, truth: seq<Octet>) {
    exists off: int :: Genuine(SegmentOf(s), base, truth, off)
  }

  lemma BareFits(base: uint32, off: int, data: seq<byte>)
    requires Bare(base, off, data).Size() <= MAX_PACKET
    ensures |data| <= 0xffff
  {
  }

  lemma BareGenuine(base: uint32, off: int, data: seq<byte>, truth: seq<Octet>)
    requires |data| <= 0xffff && -0xffff <= off && off + |data| <= |truth|
    requires forall i :: 0 <= i < |data| && 0 <= off + i ==> truth[off + i] == Octet(data[i], false)
    ensures Genuine(SegmentOf(Bare(base, off, data)), base, truth, off)
  {
  }

  /** A slice of the data sent at its own place. */
  lemma PieceGenuine(base: uint32, data: seq<byte>, from: nat, to: nat)
    requires from <= to <= |data| && Bare(base, from, data[from..to]).Size() <= MAX_PACKET
    ensures Genuine(SegmentOf(Bare(base, from, data[from..to])), base, Plain(data), from)
    ensures |SegmentOf(Bare(base, from, data[from..to])).payload| == to - from
  {
    BareFits(base, from, data[from..to]);
    BareGenuine(base, from, data[from..to], Plain(data));
  }

  lemma UrgentGenuine(base: uint32, off: nat, truth: seq<Octet>)
    requires off < |truth| && truth[off] == Octet(FILLER, true)
    ensures Genuine(SegmentOf(Sending(SeqAt(base, off), PSH_ACK + URG, 1, [FILLER], Clean)), base, truth, off)
  {
  }

  lemma OverlapGenuine(base: uint32, n: nat, decoy: seq<byte>, data: seq<byte>, truth: seq<Octet>)
    requires Overlapping(base, n, decoy, data).Size() <= MAX_PACKET && |data| <= |truth|
    requires forall i :: 0 <= i < |data| ==> truth[i] == Octet(data[i], false)
    ensures Genuine(SegmentOf(Overlapping(base, n, decoy, data)), base, truth, -(n as int))
  {
    var bytes := DecoyFill(n, decoy) + data;
    assert forall i :: n <= i < |bytes| ==> bytes[i] == data[i - n];
    BareGenuine(base, -(n as int), bytes, truth);
  }

  /** Sending s carries octet j of the stream. */
  predicate Bears(s: Sending, base: uint32, truth: seq<Octet>, off: int, j: nat) {
    s.poison == Clean && Genuine(SegmentOf(s), base, truth, off) && Covers(SegmentOf(s), off, j)
  }

  ghost predicate Borne(script: seq<Sending>, base: uint32, truth: seq<Octet>, j: nat) {
    exists s, off: int :: s in script && Bears(s, base, truth, off, j)
  }

  /** Every clean sending is genuine, and together they carry the whole stream. */
  ghost predicate Complete(script: seq<Sending>, base: uint32, truth: seq<Octet>) {
    && (forall s :: s in script && s.poison == Clean ==> Good(s, base, truth))
    && (forall j :: 0 <= j < |truth| ==> Borne(script, base, truth, j))
  }

  predicate Fits(script: seq<Sending>) {
    forall s :: s in script ==> s.Size() <= MAX_PACKET
  }

  lemma WholeComplete(base: uint32, tr: Trigger, n: nat, decoy: seq<byte>)
    requires Overlapping(base, n, decoy, tr.payload).Size() <= MAX_PACKET
    ensures Complete([Overlapping(base, n, decoy, tr.payload)], base, Plain(tr.payload))
  {
    var s, truth := Overlapping(base, n, decoy, tr.payload), Plain(tr.payload);
    OverlapGenuine(base, n, decoy, tr.payload, truth);
    forall j | 0 <= j < |truth|
      ensures Borne([s], base, truth, j)
    {
      assert Bears(s, base, truth, -(n as int), j);
    }
  }

  lemma BareIsOverlapping(base: uint32, data: seq<byte>, decoy: seq<byte>)
    ensures Bare(base, 0, data) == Overlapping(base, 0, decoy, data)
  {
    assert DecoyFill(0, decoy) + data == data;
  }

  lemma ReversedComplete(base: uint32, tr: Trigger, p: Poison)
    requires |tr.payload| >= 2 && Fits(ReversedScript(base, tr, p))
    ensures Complete(ReversedScript(base, tr, p), base, Plain(tr.payload))
  {
    var data, truth, mid := tr.payload, Plain(tr.payload), MidSplit(tr);
    var tail, middle := Bare(base, mid, data[mid..]), Bare(base, 1, data[1..mid]);
    var head := Overlapping(base, p.seqovl, p.decoy, data[..1]);
    BareIsOverlapping(base, data[..1], p.decoy);
    assert ReversedScript(base, tr, p) == [tail, middle, head];
    assert tail in ReversedScript(base, tr, p) && middle in ReversedScript(base, tr, p)
           && head in ReversedScript(base, tr, p);
    assert data[mid..] == data[mid..|data|];
    PieceGenuine(base, data, mid, |data|);
    PieceGenuine(base, data, 1, mid);
    OverlapGenuine(base, p.seqovl, p.decoy, data[..1], truth);
    hide ReversedScript, Fits, Genuine, Overlapping;
    ThreeComplete(tail, middle, head, base, truth, mid, 1, -(p.seqovl as int));
  }

  /** Three genuine sends that cover the stream between them. */
  lemma ThreeComplete(
    a: Sending, b: Sending, c: Sending, base: uint32, truth: seq<Octet>, offA: int, offB: int, offC: int)
    requires a.poison == Clean && b.poison == Clean && c.poison == Clean
    requires Genuine(SegmentOf(a), base, truth, offA) && Genuine(SegmentOf(b), base, truth, offB)
             && Genuine(SegmentOf(c), base, truth, offC)
    requires forall j :: 0 <= j < |truth| ==>
               Covers(SegmentOf(a), offA, j) || Covers(SegmentOf(b), offB, j) || Covers(SegmentOf(c), offC, j)
    ensures Complete([a, b, c], base, truth)
  {
    assert Good(a, base, truth) && Good(b, base, truth) && Good(c, base, truth);
    forall j | 0 <= j < |truth|
      ensures Borne([a, b, c], base, truth, j)
    {
      assert a in [a, b, c] && b in [a, b, c] && c in [a, b, c];
      if Covers(SegmentOf(a), offA, j) {
        assert Bears(a, base, truth, offA, j);
      } else if Covers(SegmentOf(b), offB, j) {
        assert Bears(b, base, truth, offB, j);
      } else {
        assert Bears(c, base, truth, offC, j);
      }
    }
  }

  lemma OobComplete(base: uint32, tr: Trigger, truth: seq<Octet>)
    requires |tr.payload| >= 2 && Fits(OobScript(base, tr))
    requires truth == Plain(tr.payload[..UrgentCut(tr)]) + [Octet(FILLER, true)] + Plain(tr.payload[UrgentCut(tr)..])
    ensures Complete(OobScript(base, tr), base, truth)
  {
    var data, mid := tr.payload, UrgentCut(tr);
    var first, last := Bare(base, 0, data[..mid]), Bare(base, mid + 1, data[mid..]);
    var urgent := Sending(SeqAt(base, mid), PSH_ACK + URG, 1, [FILLER], Clean);
    assert OobScript(base, tr) == [first, urgent, last];
    assert first in OobScript(base, tr) && last in OobScript(base, tr);
    BareFits(base, 0, data[..mid]);
    BareGenuine(base, 0, data[..mid], truth);
    UrgentGenuine(base, mid, truth);
    BareFits(base, mid + 1, data[mid..]);
    BareGenuine(base, mid + 1, data[mid..], truth);
    ThreeComplete(first, urgent, last, base, truth, 0, mid, mid + 1);
  }

  lemma BetweenComplete(base: uint32, tr: Trigger, p: Poison)
    requires |tr.payload| >= 2 && Fits(BetweenScript(base, tr, p))
    requires BetweenPoison(p) != Clean
    ensures Complete(BetweenScript(base, tr, p), base, Plain(tr.payload))
  {
    var data, mid, script := tr.payload, BetweenCut(tr), BetweenScript(base, tr, p);
    var first, last := Bare(base, 0, data[..mid]), Bare(base, mid, data[mid..]);
    BetweenEnds(script, first, last, Repeat(Copies(p), BetweenFake(base, tr, p)), BetweenFake(base, tr, p));
    assert data[..mid] == data[0..mid] && data[mid..] == data[mid..|data|];
    PieceGenuine(base, data, 0, mid);
    PieceGenuine(base, data, mid, |data|);
    hide BetweenScript, Fits, Genuine, Repeat, BetweenFake;
    TwoComplete(script, first, last, base, Plain(data), 0, mid);
  }

  lemma BetweenEnds(script: seq<Sending>, first: Sending, last: Sending, fakes: seq<Sending>, fake: Sending)
    requires script == [first] + fakes + [last] && forall s :: s in fakes ==> s == fake
    ensures first in script && last in script && forall s :: s in script ==> s == first || s == last || s == fake
  {
  }

  /** Two genuine sends that cover the stream between them, among others that are not clean. */
  lemma TwoComplete(
    script: seq<Sending>, a: Sending, b: Sending, base: uint32, truth: seq<Octet>, offA: int, offB: int)
    requires a in script && b in script && a.poison == Clean && b.poison == Clean
    requires forall s :: s in script ==> s == a || s == b || s.poison != Clean
    requires Genuine(SegmentOf(a), base, truth, offA) && Genuine(SegmentOf(b), base, truth, offB)
    requires forall j :: 0 <= j < |truth| ==> Covers(SegmentOf(a), offA, j) || Covers(SegmentOf(b), offB, j)
    ensures Complete(script, base, truth)
  {
    assert Good(a, base, truth) && Good(b, base, truth);
    forall j | 0 <= j < |truth|
      ensures Borne(script, base, truth, j)
    {
      if Covers(SegmentOf(a), offA, j) {
        assert Bears(a, base, truth, offA, j);
      } else {
        assert Bears(b, base, truth, offB, j);
      }
    }
  }

  /** The sends that carry the trigger carry all of it and nothing else. */
  lemma TruthComplete(base: uint32, tr: Trigger, p: Poison)
    requires |tr.payload| >= 2 && !p.synData && Fits(TruthPhase(base, tr, p))
    requires p.fakeBetween && !p.oob ==> BetweenPoison(p) != Clean
    ensures Complete(TruthPhase(base, tr, p), base, Truth(tr, p))
  {
    if p.oob {
      OobComplete(base, tr, Truth(tr, p));
    } else if p.fakeBetween {
      BetweenComplete(base, tr, p);
    } else if p.disorder {
      ReversedComplete(base, tr, p);
    } else {
      var n := p.seqovl;
      BareIsOverlapping(base, tr.payload, p.decoy);
      assert TruthPhase(base, tr, p) == [Overlapping(base, n, p.decoy, tr.payload)];
      assert Overlapping(base, n, p.decoy, tr.payload) in TruthPhase(base, tr, p);
      WholeComplete(base, tr, n, p.decoy);
    }
  }

  // ------------------------------------------------------------------ the peer

  lemma CleanSeen(peer: Peer, s: Sending)
    requires peer.hops < 64 && s.poison == Clean
    ensures Seen(peer, s)
  {
  }

  /** Every send that carries the trigger is clean, or is the decoy between its pieces. */
  lemma TruthMembers(base: uint32, tr: Trigger, p: Poison, s: Sending)
    requires |tr.payload| >= 2 && s in TruthPhase(base, tr, p)
    ensures s.poison == Clean || (p.fakeBetween && !p.synData && !p.oob && s == BetweenFake(base, tr, p))
  {
    if p.fakeBetween && !p.synData && !p.oob {
      assert s in BetweenScript(base, tr, p);
      BetweenMembers(base, tr, p, s);
      hide BetweenScript;
    }
  }

  lemma FakeLeft(base: uint32, tr: Trigger, p: Poison)
    requires -(MAX_WINDOW as int) <= p.seqShift <= -0xffff && Fake(base, tr, p).Size() <= MAX_PACKET
    ensures LeftOf(SegmentOf(Fake(base, tr, p)), base, p.seqShift)
  {
  }

  /** What the peer sees of a probe is genuine or lies left of the stream. */
  lemma SeenExpected(peer: Peer, base: uint32, tr: Trigger, p: Poison, s: Sending)
    requires |tr.payload| >= 2 && !p.synData && peer.hops < 64
    requires DecoysDie(peer, base, tr, p) && Fits(Script(base, tr, p))
    requires s in Script(base, tr, p) && Seen(peer, s)
    ensures Expected(SegmentOf(s), base, Truth(tr, p))
  {
    if s in FakePhase(base, tr, p) {
      FakeLeft(base, tr, p);
    } else {
      TruthFits(base, tr, p);
      if p.fakeBetween && !p.oob {
        assert BetweenPoison(p) != Clean by {
          if BetweenPoison(p) == Clean {
            CleanSeen(peer, BetweenFake(base, tr, p));
          }
        }
      }
      TruthMembers(base, tr, p, s);
      TruthComplete(base, tr, p);
    }
  }

  lemma TruthFits(base: uint32, tr: Trigger, p: Poison)
    requires |tr.payload| >= 2 && Fits(Script(base, tr, p))
    ensures Fits(TruthPhase(base, tr, p))
  {
    forall s | s in TruthPhase(base, tr, p)
      ensures s in Script(base, tr, p)
    {
    }
  }

  lemma PacketReads(peer: Peer, flow: Flow, x: seq<byte>, s: Sending)
    requires flow.Valid() && IsPacket(flow, x, s)
    ensures Decode(peer, flow, x) == if Seen(peer, s) && !Ignored(peer, flow, s) then Some(SegmentOf(s)) else None
  {
    var id: uint16 :| x == PacketBytes(flow, s, id);
    DecodeBuilt(peer, flow, s, id);
  }

  predicate Shows(peer: Peer, s: Sending, g: Segment) {
    Seen(peer, s) && g == SegmentOf(s)
  }

  /** A segment of the script the peer sees is among those it hears, and conversely. */
  lemma HeardIsSeen(
    peer: Peer, flow: Flow, packets: seq<seq<byte>>, arrivals: seq<seq<byte>>, script: seq<Sending>, g: Segment)
    requires flow.Valid() && PacketsOf(flow, packets, script) && Brings(peer, flow, packets, arrivals)
    requires !peer.Unsent(flow.ack)
    ensures g in Heard(peer, flow, arrivals) <==> exists s :: s in script && Shows(peer, s, g)
  {
    HeardMember(peer, flow, arrivals, g);
    if x :| x in arrivals && Decode(peer, flow, x) == Some(g) {
      var i :| 0 <= i < |packets| && packets[i] == x;
      PacketReads(peer, flow, x, script[i]);
      assert script[i] in script && Shows(peer, script[i], g);
    }
    if s :| s in script && Shows(peer, s, g) {
      var i :| 0 <= i < |script| && script[i] == s;
      PacketReads(peer, flow, packets[i], s);
      assert packets[i] in packets;
    }
  }

  lemma AllHeardExpected(
    peer: Peer, flow: Flow, base: uint32, tr: Trigger, p: Poison, packets: seq<seq<byte>>, arrivals: seq<seq<byte>>)
    requires flow.Valid() && |tr.payload| >= 2 && !p.synData && peer.hops < 64 && !peer.Unsent(flow.ack)
    requires PacketsOf(flow, packets, Script(base, tr, p)) && Brings(peer, flow, packets, arrivals)
    requires DecoysDie(peer, base, tr, p)
    ensures forall g :: g in Heard(peer, flow, arrivals) ==> Expected(g, base, Truth(tr, p))
    ensures forall j :: 0 <= j < |Truth(tr, p)| ==> Carried(Heard(peer, flow, arrivals), base, Truth(tr, p), j)
  {
    var script, truth, heard := Script(base, tr, p), Truth(tr, p), Heard(peer, flow, arrivals);
    PacketsFit(flow, packets, script);
    forall g | g in heard
      ensures Expected(g, base, truth)
    {
      HeardIsSeen(peer, flow, packets, arrivals, script, g);
      var s :| s in script && Shows(peer, s, g);
      SeenExpected(peer, base, tr, p, s);
    }
    TruthFits(base, tr, p);
    if p.fakeBetween && !p.oob && BetweenPoison(p) == Clean {
      CleanSeen(peer, BetweenFake(base, tr, p));
      assert false;
    }
    TruthComplete(base, tr, p);
    forall j | 0 <= j < |truth|
      ensures Carried(heard, base, truth, j)
    {
      assert Borne(TruthPhase(base, tr, p), base, truth, j);
      var s, off: int :| s in TruthPhase(base, tr, p) && Bears(s, base, truth, off, j);
      CleanSeen(peer, s);
      HeardIsSeen(peer, flow, packets, arrivals, script, SegmentOf(s));
      assert s in script && Shows(peer, s, SegmentOf(s));
      assert Carries(SegmentOf(s), base, truth, j);
    }
  }

  lemma PacketsFit(flow: Flow, packets: seq<seq<byte>>, script: seq<Sending>)
    requires flow.Valid() && PacketsOf(flow, packets, script)
    ensures Fits(script)
  {
    forall s | s in script
      ensures s.Size() <= MAX_PACKET
    {
      var i :| 0 <= i < |script| && script[i] == s;
      assert IsPacket(flow, packets[i], script[i]);
    }
  }

  lemma TruthReads(tr: Trigger, p: Poison)
    requires |tr.payload| >= 2
    ensures InBand(Truth(tr, p)) == tr.payload
  {
    if p.oob && !p.synData {
      var mid := UrgentCut(tr);
      var a, u, b := Plain(tr.payload[..mid]), [Octet(FILLER, true)], Plain(tr.payload[mid..]);
      InBandConcat(a, u);
      InBandConcat(a + u, b);
      InBandPlain(tr.payload[..mid]);
      InBandPlain(tr.payload[mid..]);
      assert InBand(u) == InBand(u[1..]) == [];
    } else {
      InBandPlain(tr.payload);
    }
  }

  /**
    The peer reads exactly the trigger, whatever the order and repetition in the network and
    whichever copy of a repeated octet it keeps, and it acknowledges up to the number the
    sender arrived at: what the sender acknowledges, the peer has sent. Only a SYN over the
    established connection (synData) is left out.
    */
  lemma PeerReadsTrigger(
    peer: Peer, flow: Flow, base: uint32, tr: Trigger, p: Poison,
    packets: seq<seq<byte>>, arrivals: seq<seq<byte>>, window: nat, keepFirst: bool)
    requires flow.Valid() && |tr.payload| >= 2 && !p.synData && peer.hops < 64 && !peer.Unsent(flow.ack)
    requires PacketsOf(flow, packets, Script(base, tr, p)) && Brings(peer, flow, packets, arrivals)
    requires DecoysDie(peer, base, tr, p)
    requires Sendable(Truth(tr, p), window)
    ensures var r := ArriveAll(Start(base, window, keepFirst), Heard(peer, flow, arrivals));
            InBand(r.stream) == tr.payload && r.next == SeqAt(base, |Truth(tr, p)|) && !r.reset
  {
    AllHeardExpected(peer, flow, base, tr, p, packets, arrivals);
    Reassembles(Heard(peer, flow, arrivals), base, Truth(tr, p), window, keepFirst);
    TruthReads(tr, p);
  }

  /** A peer that has not sent what the connection acknowledges reads nothing at all: the number has to be right. */
  lemma UnsentReadsNothing(
    peer: Peer, flow: Flow, base: uint32, tr: Trigger, p: Poison,
    packets: seq<seq<byte>>, arrivals: seq<seq<byte>>, window: nat, keepFirst: bool)
    requires flow.Valid() && |tr.payload| >= 2 && !p.synData && peer.Unsent(flow.ack)
    requires PacketsOf(flow, packets, Script(base, tr, p)) && forall x :: x in arrivals ==> x in packets
    ensures ArriveAll(Start(base, window, keepFirst), Heard(peer, flow, arrivals)) == Start(base, window, keepFirst)
  {
    forall x | x in arrivals
      ensures Decode(peer, flow, x) == None
    {
      var i :| 0 <= i < |packets| && packets[i] == x;
      var s := Script(base, tr, p)[i];
      ScriptAcknowledges(base, tr, p, s);
      PacketReads(peer, flow, x, s);
    }
    NothingHeard(peer, flow, arrivals);
  }

  lemma ScriptAcknowledges(base: uint32, tr: Trigger, p: Poison, s: Sending)
    requires |tr.payload| >= 2 && !p.synData && s in Script(base, tr, p)
    ensures SegmentOf(s).ack && !SegmentOf(s).syn
  {
    if s in FakePhase(base, tr, p) {
      assert s == Fake(base, tr, p);
    } else if p.fakeBetween && !p.oob {
      assert s in BetweenScript(base, tr, p);
      BetweenMembers(base, tr, p, s);
      hide BetweenScript;
    }
  }

  lemma {:induction false} NothingHeard(peer: Peer, flow: Flow, packets: seq<seq<byte>>)
    requires flow.Valid() && forall x :: x in packets ==> Decode(peer, flow, x) == None
    ensures Heard(peer, flow, packets) == []
  {
    if packets != [] {
      NothingHeard(peer, flow, packets[1..]);
    }
  }

  /**
    The shift in use puts every decoy that fits a packet wholly left of the stream, around the circle of
    numbers too, and a receiver that has read any part of any stream stays as it was.
    */
  lemma ShiftedDecoyDies(peer: Peer, base: uint32, tr: Trigger, p: Poison, r: Receiver, truth: seq<Octet>)
    requires p.seqShift == -66000 && Fake(base, tr, p).Size() <= MAX_PACKET && Tracks(r, base, truth)
    ensures Harmless(peer, Fake(base, tr, p))
    ensures LeftOf(SegmentOf(Fake(base, tr, p)), base, -66000) && Arrive(r, SegmentOf(Fake(base, tr, p))) == r
  {
    FakeLeft(base, tr, p);
    LeftArrives(r, SegmentOf(Fake(base, tr, p)), base, truth, -66000);
  }

  /** Decoys whose TTL runs out on the way die, before the trigger and between its pieces. */
  lemma ShortDecoysDie(peer: Peer, base: uint32, tr: Trigger, p: Poison)
    requires |tr.payload| >= 2 && p.ttl > 0 && peer.hops >= p.ttl % 0x100
    ensures DecoysDie(peer, base, tr, p)
  {
  }

  /** Decoys with a TCP-MD5 option die at a peer that refuses it; the one between the pieces never has it. */
  lemma Md5DecoysDie(peer: Peer, base: uint32, tr: Trigger, p: Poison)
    requires |tr.payload| >= 2 && p.md5 && peer.refusesMd5 && !p.fakeBetween
    ensures DecoysDie(peer, base, tr, p)
  {
  }

  /** Packets of a decoy with a damaged checksum read as nothing at a peer that verifies checksums. */
  lemma DamagedDecoysDie(peer: Peer, flow: Flow, base: uint32, tr: Trigger, p: Poison, packet: seq<byte>)
    requires |tr.payload| >= 2 && flow.Valid() && p.badsum && peer.checksSum
    ensures DecoysDie(peer, base, tr, p)
    ensures IsPacket(flow, packet, Fake(base, tr, p)) || IsPacket(flow, packet, BetweenFake(base, tr, p)) ==>
            Decode(peer, flow, packet) == None
  {
    if IsPacket(flow, packet, Fake(base, tr, p)) {
      PacketReads(peer, flow, packet, Fake(base, tr, p));
    }
    if IsPacket(flow, packet, BetweenFake(base, tr, p)) {
      PacketReads(peer, flow, packet, BetweenFake(base, tr, p));
    }
  }

  /** Data in a SYN over the established connection resets it: nothing is read. */
  lemma SynDataReadsNothing(
    peer: Peer, flow: Flow, base: uint32, tr: Trigger, p: Poison,
    packets: seq<seq<byte>>, window: nat, keepFirst: bool)
    requires flow.Valid() && |tr.payload| >= 2 && p.synData && peer.hops < 64 && window > 0
    requires PacketsOf(flow, packets, Script(base, tr, p))
    ensures var r := ArriveAll(Start(base, window, keepFirst), Heard(peer, flow, packets));
            InBand(r.stream) == [] && r.reset
  {
    var s := Sending(base, PSH_ACK + SYN, 0, tr.payload, Clean);
    SynScript(base, tr, p);
    SynSegment(base, tr.payload);
    hide SegmentOf, PacketsOf;
    HeardInOrder(peer, flow, packets, [s]);
    SeenOfOne(peer, s);
    SynResets(Start(base, window, keepFirst), SegmentOf(s));
    assert InBand([]) == [];
  }

  lemma SynSegment(base: uint32, data: seq<byte>)
    ensures SegmentOf(Sending(base, PSH_ACK + SYN, 0, data, Clean)).syn
  {
  }

  lemma SynScript(base: uint32, tr: Trigger, p: Poison)
    requires |tr.payload| >= 2 && p.synData
    ensures Script(base, tr, p) == [Sending(base, PSH_ACK + SYN, 0, tr.payload, Clean)]
  {
    assert FakePhase(base, tr, p) == [];
  }

  lemma SeenOfOne(peer: Peer, s: Sending)
    requires Seen(peer, s)
    ensures SeenOf(peer, [s]) == [SegmentOf(s)]
  {
    assert SeenOf(peer, [s][1..]) == [];
  }

  lemma SynResets(r: Receiver, s: Segment)
    requires s.syn && s.number == r.next && r.window > 0 && !r.reset
    ensures ArriveAll(r, [s]) == r.(reset := true)
  {
    assert Ahead(r.next, s.number) == 0;
    assert ArriveAll(Arrive(r, s), [s][1..]) == Arrive(r, s);
  }

  // ------------------------------------------------------------------ the order of the pieces

  /** A segment that leaves out the octet the receiver waits for hands nothing over. */
  lemma {:induction false} StoreSkips(r: Receiver, s: Segment, held: map<uint32, Octet>, i: nat, pos: uint32)
    requires i <= |s.payload| && pos !in held
    requires forall k :: i <= k < |s.payload| ==> SeqAt(s.number, k) != pos
    ensures pos !in Store(r, s, held, i)
    decreases |s.payload| - i
  {
    if i < |s.payload| {
      StoreSkips(r, s, Insert(r, held, SeqAt(s.number, i), s.At(i)), i + 1, pos);
    }
  }

  /** Nothing has been read, and the first octet is not held. */
  predicate Waits(r: Receiver, base: uint32) {
    r.stream == [] && r.next == base && base !in r.held && !r.reset
  }

  lemma AheadWaits(r: Receiver, base: uint32, s: Segment, off: int)
    requires Waits(r, base) && s.number == SeqAt(base, off) && !s.syn
    requires 0 < off && off + |s.payload| < MODULUS
    ensures Waits(Arrive(r, s), base)
  {
    forall k | 0 <= k < |s.payload|
      ensures SeqAt(s.number, k) != base
    {
      SeqAtCompose(base, off, k);
      AheadOf(base, 0, off + k);
      SeqAtZero(base);
    }
    StoreSkips(r, s, r.held, 0, base);
  }

  lemma LeftWaits(r: Receiver, base: uint32, s: Segment, off: int)
    requires Waits(r, base) && r.window <= MAX_WINDOW && LeftOf(s, base, off)
    ensures Arrive(r, s) == r
  {
    BehindArrives(r, s, off);
  }

  /** A send that does not bring the first octet. */
  ghost predicate Late(s: Sending, base: uint32) {
    || (exists off: int :: LeftOf(SegmentOf(s), base, off))
    || (exists off: int :: 0 < off && off + |s.payload| < MODULUS && s.number == SeqAt(base, off) && !SegmentOf(s).syn)
  }

  lemma {:induction false} AllWait(peer: Peer, r: Receiver, base: uint32, script: seq<Sending>)
    requires Waits(r, base) && r.window <= MAX_WINDOW
    requires forall s :: s in script && Seen(peer, s) ==> Late(s, base)
    ensures Waits(ArriveAll(r, SeenOf(peer, script)), base)
    decreases |script|
  {
    if script != [] {
      var rest := script[1..];
      if Seen(peer, script[0]) {
        var g := SegmentOf(script[0]);
        assert Late(script[0], base);
        if off: int :| LeftOf(g, base, off) {
          LeftWaits(r, base, g, off);
        } else {
          var off: int :| 0 < off && off + |g.payload| < MODULUS && g.number == SeqAt(base, off) && !g.syn;
          AheadWaits(r, base, g, off);
        }
        assert SeenOf(peer, script) == [g] + SeenOf(peer, rest);
        assert ([g] + SeenOf(peer, rest))[1..] == SeenOf(peer, rest);
        WindowStays(r, g);
        AllWait(peer, Arrive(r, g), base, rest);
      } else {
        assert SeenOf(peer, script) == SeenOf(peer, rest);
        AllWait(peer, r, base, rest);
      }
    }
  }

  lemma WindowStays(r: Receiver, s: Segment)
    ensures Arrive(r, s).window == r.window
  {
  }

  /**
    Reversed, the first byte comes last: whoever takes the packets in the order they are sent has read nothing of
    the trigger until the very last one.
    */
  lemma FirstByteLast(
    peer: Peer, flow: Flow, base: uint32, tr: Trigger, p: Poison,
    packets: seq<seq<byte>>, window: nat, keepFirst: bool)
    requires flow.Valid() && |tr.payload| >= 2 && p.disorder && !p.synData && !p.oob && !p.fakeBetween
    requires PacketsOf(flow, packets, Script(base, tr, p)) && DecoysDie(peer, base, tr, p)
    requires !peer.Unsent(flow.ack) && window <= MAX_WINDOW
    ensures |packets| >= 3
    ensures ArriveAll(Start(base, window, keepFirst), Heard(peer, flow, packets[..|packets| - 1])).stream == []
  {
    var script := Script(base, tr, p);
    var front := script[..|script| - 1];
    PacketsFit(flow, packets, script);
    forall s | s in front && Seen(peer, s)
      ensures Late(s, base)
    {
      assert s in script;
      hide Script, Late;
      FrontIsLate(peer, base, tr, p, s);
    }
    HeardInOrder(peer, flow, packets[..|packets| - 1], front);
    AllWait(peer, Start(base, window, keepFirst), base, front);
  }

  lemma FrontIsLate(peer: Peer, base: uint32, tr: Trigger, p: Poison, s: Sending)
    requires |tr.payload| >= 2 && p.disorder && !p.synData && !p.oob && !p.fakeBetween
    requires var script := Script(base, tr, p); s in script[..|script| - 1]
    requires Fits(Script(base, tr, p)) && Seen(peer, s) && DecoysDie(peer, base, tr, p)
    ensures Late(s, base)
  {
    if s in FakePhase(base, tr, p) {
      FakeLeft(base, tr, p);
    } else {
      var mid := MidSplit(tr);
      var tail, middle := Bare(base, mid, tr.payload[mid..]), Bare(base, 1, tr.payload[1..mid]);
      assert ReversedScript(base, tr, p)[0] == tail && ReversedScript(base, tr, p)[1] == middle;
      TruthFits(base, tr, p);
      BareFits(base, mid, tr.payload[mid..]);
      BareFits(base, 1, tr.payload[1..mid]);
      assert s == tail || s == middle;
      if s == tail {
        assert 0 < mid && mid + |s.payload| < MODULUS;
      } else {
        assert 1 + |s.payload| < MODULUS;
      }
    }
  }

  // ------------------------------------------------------------------ an observer

  lemma {:induction false} HeardInOrder(peer: Peer, flow: Flow, packets: seq<seq<byte>>, script: seq<Sending>)
    requires flow.Valid() && PacketsOf(flow, packets, script)
    requires forall s :: s in script ==> !Ignored(peer, flow, s)
    ensures Heard(peer, flow, packets) == SeenOf(peer, script)
  {
    if script != [] {
      PacketReads(peer, flow, packets[0], script[0]);
      HeardInOrder(peer, flow, packets[1..], script[1..]);
    }
  }

  lemma {:induction false} SeenOfConcat(peer: Peer, a: seq<Sending>, b: seq<Sending>)
    ensures SeenOf(peer, a + b) == SeenOf(peer, a) + SeenOf(peer, b)
  {
    if a == [] {
      assert a + b == b;
    } else {
      assert (a + b)[1..] == a[1..] + b;
      SeenOfConcat(peer, a[1..], b);
    }
  }

  lemma {:induction false} SeenOfMember(peer: Peer, script: seq<Sending>, g: Segment)
    requires g in SeenOf(peer, script)
    ensures exists s :: s in script && Shows(peer, s, g)
  {
    if Seen(peer, script[0]) && g == SegmentOf(script[0]) {
      assert Shows(peer, script[0], g);
    } else {
      SeenOfMember(peer, script[1..], g);
      var s :| s in script[1..] && Shows(peer, s, g);
      assert s in script;
    }
  }

  /** A send that ends at or before octet n and starts before it. */
  predicate Within(s: Sending, base: uint32, off: int, n: nat) {
    s.number == SeqAt(base, off) && -0xffff <= off < n && off + |s.payload| <= n
  }

  ghost predicate IsWithin(s: Sending, base: uint32, n: nat) {
    exists off: int :: Within(s, base, off, n)
  }

  /** An observer that has read n octets takes nothing more from sends that end there. */
  lemma NothingBeyond(peer: Peer, r: Receiver, base: uint32, n: nat, script: seq<Sending>)
    requires n <= r.window <= MAX_WINDOW && r.next == SeqAt(base, n)
    requires forall s :: s in script ==> IsWithin(s, base, n)
    ensures ArriveAll(r, SeenOf(peer, script)) == r
  {
    forall g | g in SeenOf(peer, script)
      ensures IsBehind(r, g)
    {
      SeenOfMember(peer, script, g);
      var s :| s in script && Shows(peer, s, g);
      var off: int :| Within(s, base, off, n);
      SeqAtCompose(base, n, off - n);
      assert Behind(r, g, off - n);
    }
    AllBehind(r, SeenOf(peer, script));
  }

  /**
    An observer that hears front first, all of it telling the stream lie, and then only sends
    that end where lie ends, has read lie.
    */
  lemma ObserverReads(
    peer: Peer, base: uint32, front: seq<Sending>, back: seq<Sending>, lie: seq<Octet>, window: nat, keepFirst: bool)
    requires Sendable(lie, window)
    requires forall s :: s in front ==> Seen(peer, s) && Good(s, base, lie)
    requires forall j :: 0 <= j < |lie| ==> Carried(SeenOf(peer, front), base, lie, j)
    requires forall s :: s in back ==> IsWithin(s, base, |lie|)
    ensures ArriveAll(Start(base, window, keepFirst), SeenOf(peer, front + back)).stream == lie
  {
    SeenOfConcat(peer, front, back);
    var start := Start(base, window, keepFirst);
    ArriveAllConcat(start, SeenOf(peer, front), SeenOf(peer, back));
    forall g | g in SeenOf(peer, front)
      ensures Expected(g, base, lie)
    {
      SeenOfMember(peer, front, g);
      var s :| s in front && Shows(peer, s, g);
      assert Good(s, base, lie);
    }
    Reassembles(SeenOf(peer, front), base, lie, window, keepFirst);
    NothingBeyond(peer, ArriveAll(start, SeenOf(peer, front)), base, |lie|, back);
  }

  lemma FakeGood(base: uint32, tr: Trigger, p: Poison)
    requires p.seqShift == 0 && Fake(base, tr, p).Size() <= MAX_PACKET
    ensures Genuine(SegmentOf(Fake(base, tr, p)), base, Plain(DecoyFill(2 * |tr.payload|, p.decoy)), 0)
  {
    SeqAtZero(base);
  }

  lemma AfterFakeWithin(base: uint32, tr: Trigger, p: Poison, s: Sending)
    requires |tr.payload| >= 2 && p.named && p.HasFake() && p.seqShift == 0 && Fits(Script(base, tr, p))
    requires s in Script(base, tr, p)
    ensures IsWithin(s, base, 2 * |tr.payload|)
  {
    if s in FakePhase(base, tr, p) {
      SeqAtZero(base);
      assert Within(s, base, 0, 2 * |tr.payload|);
    } else {
      TruthFits(base, tr, p);
      TruthComplete(base, tr, p);
      TruthMembers(base, tr, p, s);
      assert Good(s, base, Truth(tr, p));
      var off: int :| Genuine(SegmentOf(s), base, Truth(tr, p), off);
      assert Within(s, base, off, 2 * |tr.payload|);
    }
  }

  /**
    An observer that takes the decoy, say because it does not verify checksums, reads the
    decoy and nothing of the trigger, whichever way the trigger itself is sent.
    */
  lemma ObserverReadsDecoy(
    observer: Peer, flow: Flow, base: uint32, tr: Trigger, p: Poison,
    packets: seq<seq<byte>>, window: nat, keepFirst: bool)
    requires flow.Valid() && |tr.payload| >= 2 && 2 * |tr.payload| <= window <= MAX_WINDOW
    requires !observer.Unsent(flow.ack)
    requires p.named && p.HasFake() && p.seqShift == 0 && Seen(observer, Fake(base, tr, p))
    requires PacketsOf(flow, packets, Script(base, tr, p))
    ensures var r := ArriveAll(Start(base, window, keepFirst), Heard(observer, flow, packets));
            && |AllBytes(r.stream)| == 2 * |tr.payload| && AllBytes(r.stream) != tr.payload
            && forall i :: 0 <= i < 2 * |tr.payload| ==>
                 AllBytes(r.stream)[i] == if i < |p.decoy| then p.decoy[i] else 0x0f
  {
    var fake, script, lie := Fake(base, tr, p), Script(base, tr, p), Plain(DecoyFill(2 * |tr.payload|, p.decoy));
    PacketsFit(flow, packets, script);
    DecoyFirst(base, tr, p);
    FakeGood(base, tr, p);
    OneBearsAll(observer, fake, base, lie);
    forall s | s in script[1..]
      ensures IsWithin(s, base, |lie|)
    {
      AfterFakeWithin(base, tr, p, s);
    }
    HeardInOrder(observer, flow, packets, script);
    ObserverReads(observer, base, [fake], script[1..], lie, window, keepFirst);
    hide *;
    FilledBytes(2 * |tr.payload|, p.decoy);
    BytesOfPlain(DecoyFill(2 * |tr.payload|, p.decoy));
  }

  lemma FilledBytes(n: nat, decoy: seq<byte>)
    ensures forall i :: 0 <= i < n ==> DecoyFill(n, decoy)[i] == if i < |decoy| then decoy[i] else 0x0f
  {
  }

  lemma BytesOfPlain(bs: seq<byte>)
    ensures AllBytes(Plain(bs)) == bs
  {
  }

  lemma DecoyFirst(base: uint32, tr: Trigger, p: Poison)
    requires |tr.payload| >= 2 && p.named && p.HasFake()
    ensures var script := Script(base, tr, p);
            script != [] && Fake(base, tr, p) in script && script == [Fake(base, tr, p)] + script[1..]
  {
    assert Script(base, tr, p)[0] == Fake(base, tr, p);
  }

  /** A single send that starts the stream and is as long as it carries all of it. */
  lemma OneBearsAll(peer: Peer, s: Sending, base: uint32, lie: seq<Octet>)
    requires Seen(peer, s) && Genuine(SegmentOf(s), base, lie, 0) && |s.payload| == |lie|
    ensures Good(s, base, lie)
    ensures forall j :: 0 <= j < |lie| ==> Carried(SeenOf(peer, [s]), base, lie, j)
  {
    SeenOfOne(peer, s);
    forall j | 0 <= j < |lie|
      ensures Carried(SeenOf(peer, [s]), base, lie, j)
    {
      assert Covers(SegmentOf(s), 0, j);
      assert Carries(SegmentOf(s), base, lie, j);
    }
  }

  /** What an observer that takes the decoy between the pieces reads. */
  function SplitLie(tr: Trigger): (l: seq<byte>)
    requires |tr.payload| >= 2
    ensures |l| == |tr.payload|
  {
    tr.payload[..BetweenCut(tr)] + DecoyFill(|tr.payload| - BetweenCut(tr), [])
  }

  lemma BetweenGood(base: uint32, tr: Trigger, p: Poison)
    requires |tr.payload| >= 2 && Fits(BetweenScript(base, tr, p))
    ensures var mid, lie := BetweenCut(tr), Plain(SplitLie(tr));
            && Genuine(SegmentOf(Bare(base, 0, tr.payload[..mid])), base, lie, 0)
            && Genuine(SegmentOf(BetweenFake(base, tr, p)), base, lie, mid)
  {
    var mid := BetweenCut(tr);
    BetweenFits(base, tr, p);
    LieBegins(tr);
    hide BetweenScript, Fits, Genuine, SplitLie, Plain, BetweenFake;
    BareFits(base, 0, tr.payload[..mid]);
    BareGenuine(base, 0, tr.payload[..mid], Plain(SplitLie(tr)));
    BetweenFakeGood(base, tr, p);
  }

  lemma BetweenFits(base: uint32, tr: Trigger, p: Poison)
    requires |tr.payload| >= 2 && Fits(BetweenScript(base, tr, p))
    ensures Bare(base, 0, tr.payload[..BetweenCut(tr)]).Size() <= MAX_PACKET
    ensures BetweenFake(base, tr, p).Size() <= MAX_PACKET
  {
    var script := BetweenScript(base, tr, p);
    assert script[0] in script && script[1] in script;
  }

  lemma LieBegins(tr: Trigger)
    requires |tr.payload| >= 2
    ensures |Plain(SplitLie(tr))| == |tr.payload|
    ensures forall i :: 0 <= i < BetweenCut(tr) ==> Plain(SplitLie(tr))[i] == Octet(tr.payload[i], false)
  {
  }

  lemma BetweenFakeGood(base: uint32, tr: Trigger, p: Poison)
    requires |tr.payload| >= 2 && BetweenFake(base, tr, p).Size() <= MAX_PACKET
    ensures Genuine(SegmentOf(BetweenFake(base, tr, p)), base, Plain(SplitLie(tr)), BetweenCut(tr))
  {
    SeqAtZero(SeqAt(base, BetweenCut(tr)));
  }

  /** An observer that takes the decoy between the pieces reads filler in place of the rest. */
  lemma ObserverReadsFiller(
    observer: Peer, flow: Flow, base: uint32, tr: Trigger, p: Poison,
    packets: seq<seq<byte>>, window: nat, keepFirst: bool)
    requires flow.Valid() && |tr.payload| >= 2 && |tr.payload| <= window <= MAX_WINDOW && observer.hops < 64
    requires !observer.Unsent(flow.ack)
    requires p.fakeBetween && !p.oob && !p.synData && Seen(observer, BetweenFake(base, tr, p))
    requires PacketsOf(flow, packets, Script(base, tr, p))
    ensures var r := ArriveAll(Start(base, window, keepFirst), Heard(observer, flow, packets));
            && |AllBytes(r.stream)| == |tr.payload|
            && forall i :: 0 <= i < |tr.payload| ==>
                 AllBytes(r.stream)[i] == if i < BetweenCut(tr) then tr.payload[i] else 0x0f
  {
    var mid, lie, script := BetweenCut(tr), Plain(SplitLie(tr)), BetweenScript(base, tr, p);
    assert Script(base, tr, p) == script;
    PacketsFit(flow, packets, script);
    BetweenGood(base, tr, p);
    var first, last := Bare(base, 0, tr.payload[..mid]), Bare(base, mid, tr.payload[mid..]);
    var fake := BetweenFake(base, tr, p);
    CleanSeen(observer, first);
    TwoBearAll(observer, first, fake, Copies(p), mid, base, lie);
    assert Within(last, base, mid, |lie|);
    HeardInOrder(observer, flow, packets, script);
    ObserverReads(observer, base, [first] + Repeat(Copies(p), fake), [last], lie, window, keepFirst);
    hide *;
    BytesOfPlain(SplitLie(tr));
    SplitLieBytes(tr);
  }

  lemma SplitLieBytes(tr: Trigger)
    requires |tr.payload| >= 2
    ensures forall i :: 0 <= i < |tr.payload| ==>
              SplitLie(tr)[i] == if i < BetweenCut(tr) then tr.payload[i] else 0x0f
  {
    FilledBytes(|tr.payload| - BetweenCut(tr), []);
  }

  /** One send up to octet mid and copies of another from there on carry the whole stream. */
  lemma TwoBearAll(peer: Peer, first: Sending, second: Sending, copies: nat, mid: nat, base: uint32, lie: seq<Octet>)
    requires copies >= 1 && Seen(peer, first) && Seen(peer, second)
    requires Genuine(SegmentOf(first), base, lie, 0) && |first.payload| == mid
    requires Genuine(SegmentOf(second), base, lie, mid) && mid + |second.payload| == |lie|
    ensures var front := [first] + Repeat(copies, second);
            && (forall s :: s in front ==> Seen(peer, s) && Good(s, base, lie))
            && (forall j :: 0 <= j < |lie| ==> Carried(SeenOf(peer, front), base, lie, j))
  {
    var front := [first] + Repeat(copies, second);
    assert front[0] == first && front[1] == second;
    FrontShown(peer, front, first);
    FrontShown(peer, front, second);
    assert Good(first, base, lie) && Good(second, base, lie);
    forall j | 0 <= j < |lie|
      ensures Carried(SeenOf(peer, front), base, lie, j)
    {
      if j < mid {
        assert Covers(SegmentOf(first), 0, j);
        assert Carries(SegmentOf(first), base, lie, j);
      } else {
        assert Covers(SegmentOf(second), mid, j);
        assert Carries(SegmentOf(second), base, lie, j);
      }
    }
  }

  lemma {:induction false} FrontShown(peer: Peer, script: seq<Sending>, s: Sending)
    requires s in script && Seen(peer, s)
    ensures SegmentOf(s) in SeenOf(peer, script)
  {
    if s != script[0] {
      FrontShown(peer, script[1..], s);
    }
  }

  /** With an urgent byte inside, reading every octet of the stream gives something else. */
  lemma UrgentByteDiverges(tr: Trigger, p: Poison)
    requires |tr.payload| >= 2 && p.oob && !p.synData
    ensures AllBytes(Truth(tr, p)) == tr.payload[..UrgentCut(tr)] + [FILLER] + tr.payload[UrgentCut(tr)..]
    ensures AllBytes(Truth(tr, p)) != InBand(Truth(tr, p))
  {
    TruthReads(tr, p);
  }
}
