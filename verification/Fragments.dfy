/** Cutting one UDP datagram into IPv4 fragments: where the cuts fall and what each fragment holds. */
module Fragments {
  import opened Bits
  import Checksum
  import opened Buffers

  const UDP: byte := 17
  const MORE: nat := 0x2000

  datatype Plan = Plan(three: bool, pos1: int, pos2: int, ov12: int, ov23: int, disorder: bool)

  datatype Cut = Cut(off: int, len: int)

  datatype Refusal = FirstTooFar | TooShortForThree | NoThreeWay | EmptyPiece

  datatype Cuts = Planned(cuts: seq<Cut>) | Refused(why: Refusal)

  /** Clears the three low bits; negative values go down. */
  function Align8(v: int): (a: int)
    ensures a % 8 == 0 && a <= v < a + 8
  {
    v - v % 8
  }

  // ------------------------------------------------------------------ the plan

  function First(p: Plan): (pos: int)
    ensures pos >= 8 && pos % 8 == 0
  {
    var pos := Align8(p.pos1);
    if pos < 8 then 8 else pos
  }

  /** The second cut before it is checked against the first. */
  function Second(total: int, p: Plan): (pos: int)
    ensures pos % 8 == 0
    ensures First(p) < total && 24 < total && pos > First(p) ==> pos < total
  {
    var wanted := Align8(if p.pos2 == 0 then First(p) + 24 else p.pos2);
    var behind := if wanted <= First(p) then First(p) + 8 else wanted;
    if behind >= total then Align8(total - 8) else behind
  }

  /** An overlap never reaches back past the first eight bytes. */
  function Overlap(wanted: int, pos: int): (ov: int)
    requires pos % 8 == 0
    ensures ov % 8 == 0 && ov <= pos - 8
    ensures pos >= 8 ==> (ov >= 0 <==> wanted >= 0)
  {
    if Align8(wanted) > pos - 8 then pos - 8 else Align8(wanted)
  }

  function SecondOffset(p: Plan): (off: int)
    ensures off >= 8 && off % 8 == 0
    ensures off <= First(p) <==> p.ov12 >= 0
  {
    First(p) - Overlap(p.ov12, First(p))
  }

  /** The third offset before it is checked against the end. */
  function ThirdBehind(p: Plan, pos2: int): (off: int)
    requires pos2 % 8 == 0
    ensures off % 8 == 0
  {
    var wanted := pos2 - Overlap(p.ov23, pos2);
    if wanted <= SecondOffset(p) then SecondOffset(p) + 8 else wanted
  }

  function ThirdOffset(total: int, p: Plan): (off: int)
    ensures off % 8 == 0
  {
    var behind := ThirdBehind(p, Second(total, p));
    if behind >= total then Align8(total - 8) else behind
  }

  function CutsOf(total: int, p: Plan): Cuts {
    var pos1, pos2 := First(p), Second(total, p);
    if pos1 >= total then Refused(FirstTooFar)
    else if !p.three then Planned([Cut(0, pos1), Cut(pos1, total - pos1)])
    else if total <= 24 then Refused(TooShortForThree)
    else if pos2 <= pos1 then Refused(NoThreeWay)
    else
      var off2, off3 := SecondOffset(p), ThirdOffset(total, p);
      if off3 <= off2 || off3 >= total then Refused(NoThreeWay)
      else if pos2 <= off2 then Refused(EmptyPiece)
      else Planned([Cut(0, pos1), Cut(off2, pos2 - off2), Cut(off3, total - off3)])
  }

  /** The planner's own steps; the repair of a negative second offset never happens. */
  method PlanCuts(total: int, p: Plan) returns (r: Cuts)
    ensures r == CutsOf(total, p)
  {
    hide Align8, Overlap;
    var pos1 := Align8(p.pos1);
    if pos1 < 8 {
      pos1 := 8;
    }
    if pos1 >= total {
      return Refused(FirstTooFar);
    }
    if !p.three {
      return Planned([Cut(0, pos1), Cut(pos1, total - pos1)]);
    }
    if total <= 24 {
      return Refused(TooShortForThree);
    }
    var pos2 := PlanSecond(total, p, pos1);
    if pos2 <= pos1 {
      return Refused(NoThreeWay);
    }
    var off2, off3 := PlanOffsets(total, p, pos1, pos2);
    if off3 <= off2 || off3 >= total {
      return Refused(NoThreeWay);
    }
    var len1, len2, len3 := pos1, pos2 - off2, total - off3;
    if len1 <= 0 || len2 <= 0 || len3 <= 0 {
      return Refused(EmptyPiece);
    }
    r := Planned([Cut(0, len1), Cut(off2, len2), Cut(off3, len3)]);
  }

  method PlanSecond(total: int, p: Plan, pos1: int) returns (pos2: int)
    requires pos1 == First(p)
    ensures pos2 == Second(total, p)
  {
    pos2 := p.pos2;
    if pos2 == 0 {
      pos2 := pos1 + 24;
    }
    pos2 := Align8(pos2);
    if pos2 <= pos1 {
      pos2 := pos1 + 8;
    }
    if pos2 >= total {
      pos2 := Align8(total - 8);
    }
  }

  method PlanOffsets(total: int, p: Plan, pos1: int, pos2: int) returns (off2: int, off3: int)
    requires pos1 == First(p) && pos2 == Second(total, p)
    ensures off2 == SecondOffset(p) && off3 == ThirdOffset(total, p)
  {
    var ov12, ov23 := Align8(p.ov12), Align8(p.ov23);
    if ov12 > pos1 - 8 {
      ov12 := pos1 - 8;
    }
    if ov23 > pos2 - 8 {
      ov23 := pos2 - 8;
    }
    off2, off3 := pos1 - ov12, pos2 - ov23;
    if off2 < 0 {
      off2 := 0;
    }
    if off3 <= off2 {
      off3 := off2 + 8;
    }
    if off3 >= total {
      off3 := Align8(total - 8);
    }
  }

  // ------------------------------------------------------------------ what every accepted plan keeps

  /** Pieces an IPv4 receiver takes: on eight-byte units, in order, the last one alone reaching the end. */
  ghost predicate WellCut(cs: seq<Cut>, total: int) {
    && |cs| >= 2 && cs[0].off == 0
    && (forall i :: 0 <= i < |cs| ==> cs[i].off >= 0 && cs[i].len > 0 && cs[i].off % 8 == 0)
    && (forall i :: 0 <= i < |cs| - 1 ==> cs[i].len % 8 == 0 && cs[i].off + cs[i].len < total)
    && (forall i :: 0 <= i < |cs| - 1 ==> cs[i].off < cs[i + 1].off)
    && cs[|cs| - 1].off + cs[|cs| - 1].len == total
  }

  predicate Covers(c: Cut, i: int) {
    c.off <= i < c.off + c.len
  }

  ghost predicate Covered(cs: seq<Cut>, i: int) {
    exists c :: c in cs && Covers(c, i)
  }

  ghost predicate Gapless(cs: seq<Cut>, total: int) {
    forall i :: 0 <= i < total ==> Covered(cs, i)
  }

  lemma AcceptedIsWellCut(total: int, p: Plan)
    requires CutsOf(total, p).Planned?
    ensures WellCut(CutsOf(total, p).cuts, total)
  {
    hide Align8, Overlap, Second, SecondOffset, ThirdOffset;
    if p.three {
      ThreeWellCut(First(p), Second(total, p), SecondOffset(p), ThirdOffset(total, p), total);
    }
  }

  lemma ThreeWellCut(pos1: int, pos2: int, off2: int, off3: int, total: int)
    requires pos1 % 8 == 0 && pos2 % 8 == 0 && off2 % 8 == 0 && off3 % 8 == 0
    requires 0 < pos1 < total && pos2 < total && 0 < off2 < pos2 && off2 < off3 < total
    ensures WellCut([Cut(0, pos1), Cut(off2, pos2 - off2), Cut(off3, total - off3)], total)
  {
  }

  lemma TwoAreGapless(total: int, p: Plan)
    requires CutsOf(total, p).Planned? && !p.three
    ensures Gapless(CutsOf(total, p).cuts, total)
  {
    var cs := CutsOf(total, p).cuts;
    forall i | 0 <= i < total
      ensures Covered(cs, i)
    {
      assert Covers(cs[if i < First(p) then 0 else 1], i);
    }
  }

  /** With overlaps that are not negative neither repair of the offsets is ever needed. */
  lemma RepairsUnreachable(total: int, p: Plan)
    requires p.three && First(p) < total && total > 24 && Second(total, p) > First(p)
    ensures First(p) - Overlap(p.ov12, First(p)) >= 8
    ensures p.ov12 >= 0 && p.ov23 >= 0 ==> ThirdBehind(p, Second(total, p)) < total
  {
    hide Align8;
  }

  /** The third piece starts behind the second: its overlap is negative and no repair hides it. */
  predicate ThirdAway(total: int, p: Plan) {
    var pos2 := Second(total, p);
    p.ov23 < 0 && (pos2 - Align8(p.ov23) < total || pos2 < Align8(total - 8))
  }

  /** Three pieces cover the datagram exactly when neither overlap leaves a hole. */
  lemma GaplessExactlyWhen(total: int, p: Plan)
    requires CutsOf(total, p).Planned? && p.three
    ensures Gapless(CutsOf(total, p).cuts, total) <==> p.ov12 >= 0 && !ThirdAway(total, p)
  {
    var pos1, pos2, off2, off3 := First(p), Second(total, p), SecondOffset(p), ThirdOffset(total, p);
    ThreeGapless(pos1, pos2, off2, off3, total);
    if p.ov12 >= 0 {
      ThirdJoins(total, p);
    }
  }

  /** A second piece eight octets away: octets 8 to 15 of forty are in no piece. */
  const Holey := Plan(true, 8, 24, -8, 0, false)

  lemma HoleyCuts()
    ensures CutsOf(40, Holey) == Planned([Cut(0, 8), Cut(16, 8), Cut(24, 16)])
  {
    assert First(Holey) == 8;
    assert SecondOffset(Holey) == 16;
    assert Second(40, Holey) == 24;
    assert ThirdOffset(40, Holey) == 24;
    hide First, Second, SecondOffset, ThirdOffset;
  }

  lemma HoleyPlan()
    ensures CutsOf(40, Holey).Planned? && !Gapless(CutsOf(40, Holey).cuts, 40)
  {
    HoleyCuts();
    hide CutsOf;
    assert !Covered([Cut(0, 8), Cut(16, 8), Cut(24, 16)], 8);
  }

  lemma ThreeGapless(pos1: int, pos2: int, off2: int, off3: int, total: int)
    requires 0 < pos1 < pos2 < total && 0 <= off2 < pos2 && off2 < off3 < total
    ensures Gapless([Cut(0, pos1), Cut(off2, pos2 - off2), Cut(off3, total - off3)], total)
        <==> off2 <= pos1 && off3 <= pos2
  {
    var cs := [Cut(0, pos1), Cut(off2, pos2 - off2), Cut(off3, total - off3)];
    if Gapless(cs, total) {
      assert Covered(cs, pos1) && Covered(cs, pos2);
    }
    if off2 <= pos1 && off3 <= pos2 {
      forall i | 0 <= i < total
        ensures Covered(cs, i)
      {
        assert Covers(cs[if i < pos1 then 0 else if i < pos2 then 1 else 2], i);
      }
    }
  }

  lemma ThirdJoins(total: int, p: Plan)
    requires p.ov12 >= 0 && First(p) < Second(total, p) < total && 24 < total
    requires SecondOffset(p) < ThirdOffset(total, p) < total
    ensures ThirdOffset(total, p) <= Second(total, p) <==> !ThirdAway(total, p)
  {
    hide *;
    ThirdJoinsAt(p, Second(total, p), total);
    ThirdParts(total, p);
  }

  lemma ThirdParts(total: int, p: Plan)
    ensures var behind := ThirdBehind(p, Second(total, p));
            ThirdOffset(total, p) == if behind >= total then Align8(total - 8) else behind
    ensures var pos2 := Second(total, p);
            ThirdAway(total, p) <==> (p.ov23 < 0 && (pos2 - Align8(p.ov23) < total || pos2 < Align8(total - 8)))
  {
  }

  lemma ThirdJoinsAt(p: Plan, pos2: int, total: int)
    requires pos2 % 8 == 0 && 8 <= SecondOffset(p) < pos2 < total
    ensures p.ov23 >= 0 ==> ThirdBehind(p, pos2) <= pos2
    ensures p.ov23 < 0 ==> ThirdBehind(p, pos2) == pos2 - Align8(p.ov23) > pos2
  {
    hide SecondOffset;
  }

  // ------------------------------------------------------------------ where the cuts fall

  /** Two pieces meet at the wanted position, rounded down but no less than eight; refused at or past the end. */
  lemma TwoPieces(total: int, p: Plan, eights: int)
    requires !p.three && 8 * eights <= p.pos1 < 8 * eights + 8
    ensures var at := if eights < 1 then 8 else 8 * eights;
            CutsOf(total, p) == if at >= total then Refused(FirstTooFar) else Planned([Cut(0, at), Cut(at, total - at)])
  {
    assert Align8(p.pos1) == 8 * eights;
  }

  function Max(x: int, y: int): int {
    if x > y then x else y
  }

  function Min(x: int, y: int): int {
    if x < y then x else y
  }

  /**
    Three pieces, counted in eights: the second position lies behind the first, the last piece behind the second, both
    on the last full eight but one when past the end; no piece reaches back over the first eight bytes.
    */
  lemma ThreePieces(total: int, p: Plan, a: int, b: int, o12: int, o23: int)
    requires p.three && total > 24 && b != 0
    requires p.pos1 == 8 * a && p.pos2 == 8 * b && p.ov12 == 8 * o12 && p.ov23 == 8 * o23
    ensures var one, last := Max(a, 1), total / 8 - 1;
            var two := if 8 * Max(b, one + 1) >= total then last else Max(b, one + 1);
            var second := Max(one - o12, 1);
            var third := Max(Max(two - o23, 1), second + 1);
            var from := if 8 * third >= total then last else third;
            CutsOf(total, p) ==
            if 8 * one >= total then Refused(FirstTooFar)
            else if two <= one || from <= second then Refused(NoThreeWay)
            else if two <= second then Refused(EmptyPiece)
            else Planned([Cut(0, 8 * one), Cut(8 * second, 8 * (two - second)), Cut(8 * from, total - 8 * from)])
  {
    var one := Max(a, 1);
    var two := if 8 * Max(b, one + 1) >= total then total / 8 - 1 else Max(b, one + 1);
    PositionsInEights(total, p, a, b);
    OffsetsInEights(p, one, two, o12, o23);
    AlignedEnd(total);
    hide First, Second, SecondOffset, ThirdBehind, Align8;
    assert ThirdBehind(p, Second(total, p)) == 8 * Max(Max(two - o23, 1), Max(one - o12, 1) + 1);
  }

  lemma PositionsInEights(total: int, p: Plan, a: int, b: int)
    requires p.pos1 == 8 * a && p.pos2 == 8 * b && b != 0
    ensures First(p) == 8 * Max(a, 1)
    ensures Second(total, p) ==
            8 * if 8 * Max(b, Max(a, 1) + 1) >= total then total / 8 - 1 else Max(b, Max(a, 1) + 1)
  {
    hide Align8;
    AlignedStays(a);
    AlignedStays(b);
    AlignedEnd(total);
  }

  lemma OffsetsInEights(p: Plan, one: int, two: int, o12: int, o23: int)
    requires First(p) == 8 * one && p.ov12 == 8 * o12 && p.ov23 == 8 * o23
    ensures SecondOffset(p) == 8 * Max(one - o12, 1)
    ensures ThirdBehind(p, 8 * two) == 8 * Max(Max(two - o23, 1), Max(one - o12, 1) + 1)
  {
    hide Align8, First;
    AlignedStays(o12);
    AlignedStays(o23);
    assert Overlap(p.ov12, 8 * one) == 8 * Min(o12, one - 1) && Overlap(p.ov23, 8 * two) == 8 * Min(o23, two - 1);
  }

  lemma AlignedStays(k: int)
    ensures Align8(8 * k) == 8 * k
  {
  }

  lemma AlignedEnd(total: int)
    ensures Align8(total - 8) == 8 * (total / 8 - 1)
  {
  }

  /** A second position of zero stands for twenty-four bytes after the first. */
  lemma DefaultSecond(total: int, p: Plan)
    requires p.three && p.pos2 == 0
    ensures CutsOf(total, p) == CutsOf(total, p.(pos2 := First(p) + 24))
  {
    SameCuts(total, p, p.(pos2 := First(p) + 24));
  }

  lemma SameCuts(total: int, p: Plan, q: Plan)
    requires p.three == q.three && First(p) == First(q) && Second(total, p) == Second(total, q)
    requires p.ov12 == q.ov12 && p.ov23 == q.ov23
    ensures CutsOf(total, p) == CutsOf(total, q)
  {
    hide First, Second, Overlap, Align8;
  }

  /** Positions and overlaps count in whole eights, whatever is asked for. */
  lemma RoundedPlan(total: int, p: Plan)
    requires p.pos2 < 0 || p.pos2 == 0 || p.pos2 >= 8
    ensures CutsOf(total, p) ==
            CutsOf(total, p.(pos1 := Align8(p.pos1), pos2 := Align8(p.pos2),
                             ov12 := Align8(p.ov12), ov23 := Align8(p.ov23)))
  {
    var q := p.(pos1 := Align8(p.pos1), pos2 := Align8(p.pos2), ov12 := Align8(p.ov12), ov23 := Align8(p.ov23));
    hide Align8, Overlap, ThirdOffset;
    AlignedStays(0);
    AlignedTwice(p.pos1);
    AlignedTwice(p.pos2);
    OverlapRounded(p.ov12, First(p));
    OverlapRounded(p.ov23, Second(total, p));
    assert First(p) == First(q);
    assert Second(total, p) == Second(total, q);
    SameOffsets(total, p, q);
    hide First, Second, SecondOffset;
  }

  lemma SameOffsets(total: int, p: Plan, q: Plan)
    requires First(p) == First(q) && Second(total, p) == Second(total, q)
    requires Overlap(p.ov12, First(p)) == Overlap(q.ov12, First(q))
    requires Overlap(p.ov23, Second(total, p)) == Overlap(q.ov23, Second(total, q))
    ensures SecondOffset(p) == SecondOffset(q) && ThirdOffset(total, p) == ThirdOffset(total, q)
  {
    hide First, Second, Overlap, Align8;
  }

  lemma AlignedTwice(v: int)
    ensures Align8(Align8(v)) == Align8(v) && (v >= 8 ==> Align8(v) >= 8) && (v < 0 ==> Align8(v) < 0)
  {
  }

  lemma OverlapRounded(wanted: int, pos: int)
    requires pos % 8 == 0
    ensures Overlap(Align8(wanted), pos) == Overlap(wanted, pos)
  {
    AlignedTwice(wanted);
  }

  /** A datagram of up to twenty-four bytes is never cut in three. */
  lemma TooShort(total: int, p: Plan)
    requires p.three && First(p) < total <= 24
    ensures CutsOf(total, p) == Refused(TooShortForThree)
  {
  }

  // ------------------------------------------------------------------ the datagram

  function UdpPseudo(src: seq<byte>, dst: seq<byte>, length: uint16): (h: seq<byte>)
    requires |src| == 4 && |dst| == 4
    ensures |h| == 12
  {
    src + dst + [0, UDP] + Put16(length)
  }

  function UdpPorts(sport: uint16, dport: uint16, size: nat): (h: seq<byte>)
    ensures |h| == 6
  {
    Put16(sport) + Put16(dport) + Put16(Truncate16(8 + size))
  }

  datatype Datagram = Datagram(src: seq<byte>, dst: seq<byte>, sport: uint16, dport: uint16, payload: seq<byte>)
  {
    predicate Valid() {
      |src| == 4 && |dst| == 4
    }

    /** All that the checksum covers ahead of its own field. */
    function Head(): (h: seq<byte>)
      requires Valid()
      ensures |h| == 18
    {
      UdpPseudo(src, dst, Truncate16(8 + |payload|)) + UdpPorts(sport, dport, |payload|)
    }

    function Bytes(): (b: seq<byte>)
      requires Valid()
      ensures |b| == 8 + |payload|
    {
      UdpPorts(sport, dport, |payload|) + Put16(Checksum.UdpField(Head(), payload)) + payload
    }
  }

  /** The receiver's check of a whole datagram, under the pseudo header of section 3.2 of RFC 768. */
  predicate UdpAccepts(src: seq<byte>, dst: seq<byte>, l4: seq<byte>)
    requires |src| == 4 && |dst| == 4
  {
    Checksum.Verifies(UdpPseudo(src, dst, Truncate16(|l4|)) + l4)
  }

  /** The checksum is taken over the whole datagram, so the receiver accepts it once it is back together. */
  lemma BuiltAccepted(d: Datagram)
    requires d.Valid()
    ensures UdpAccepts(d.src, d.dst, d.Bytes())
  {
    hide Checksum.UdpField, Checksum.Verifies, Put16, Truncate16;
    Checksum.UdpVerifies(d.Head(), d.payload);
    var pseudo, ports := UdpPseudo(d.src, d.dst, Truncate16(8 + |d.payload|)), UdpPorts(d.sport, d.dport, |d.payload|);
    assert pseudo + d.Bytes() == pseudo + ports + Put16(Checksum.UdpField(d.Head(), d.payload)) + d.payload;
  }

  /** What section 1 of RFC 768 puts where: ports, length, and the payload behind the checksum. */
  predicate UdpCarries(b: seq<byte>, sport: int, dport: int, payload: seq<byte>) {
    |b| >= 8 && Holds16(b, 0, sport) && Holds16(b, 2, dport) && Holds16(b, 4, |b|) && b[8..] == payload
  }

  lemma DatagramByIndex(d: Datagram)
    requires d.Valid() && 8 + |d.payload| <= 0xffff
    ensures UdpCarries(d.Bytes(), d.sport, d.dport, d.payload)
  {
    var a, b, c := Put16(d.sport), Put16(d.dport), Put16(Truncate16(8 + |d.payload|));
    Put16Holds(d.sport);
    Put16Holds(d.dport);
    Put16Holds(8 + |d.payload|);
    hide Put16, Checksum.UdpField;
    PortsAt(a, b, c, Put16(Checksum.UdpField(d.Head(), d.payload)), d.payload);
  }

  /** What the UDP checksum covers ahead of the header: both addresses, zero, the protocol and the length. */
  lemma PseudoByIndex(src: seq<byte>, dst: seq<byte>, length: uint16)
    requires |src| == 4 && |dst| == 4
    ensures var h := UdpPseudo(src, dst, length);
            h[..4] == src && h[4..8] == dst && h[8] == 0 && h[9] == 17 && Holds16(h, 10, length)
  {
    Put16Holds(length);
    hide Put16;
  }

  lemma PortsAt(a: seq<byte>, b: seq<byte>, c: seq<byte>, sum: seq<byte>, payload: seq<byte>)
    requires |a| == |b| == |c| == |sum| == 2
    ensures var x := a + b + c + sum + payload;
            && x[0] == a[0] && x[1] == a[1] && x[2] == b[0] && x[3] == b[1] && x[4] == c[0] && x[5] == c[1]
            && x[8..] == payload
  {
  }

  // ------------------------------------------------------------------ the packets

  /** Offset in eight-byte units; the flag is set over whatever the offset left there. */
  function FragmentField(offset: nat, more: bool): uint16 {
    var units := Truncate16(offset / 8);
    if more && units / MORE % 2 == 0 then units + MORE else units
  }

  function PacketHead(id: uint16, offset: nat, size: nat, more: bool): (h: seq<byte>)
    ensures |h| == 10
  {
    [0x45, 0] + Put16(Truncate16(20 + size)) + Put16(id) + Put16(FragmentField(offset, more)) + [64, UDP]
  }

  function Packet(src: seq<byte>, dst: seq<byte>, id: uint16, offset: nat, data: seq<byte>, more: bool): (p: seq<byte>)
    requires |src| == 4 && |dst| == 4
    ensures |p| == 20 + |data|
  {
    var head := PacketHead(id, offset, |data|, more);
    head + Put16(Checksum.FilledField(head, src + dst)) + (src + dst) + data
  }

  /** One fragment byte by byte, but for the checksum: the flags hold MF alone, the offset counts eights. */
  lemma PacketByIndex(src: seq<byte>, dst: seq<byte>, id: uint16, offset: nat, data: seq<byte>, more: bool)
    requires |src| == 4 && |dst| == 4 && offset % 8 == 0 && offset < 0x1_0000 && |data| <= 65515
    ensures var p := Packet(src, dst, id, offset, data, more);
            && p[0] == 0x45 && p[1] == 0 && Holds16(p, 2, 20 + |data|) && Holds16(p, 4, id)
            && Holds16(p, 6, offset / 8 + if more then 0x2000 else 0)
            && p[8] == 64 && p[9] == 17 && p[12..16] == src && p[16..20] == dst && p[20..] == data
  {
    var a, b, c := Put16(Truncate16(20 + |data|)), Put16(id), Put16(FragmentField(offset, more));
    Put16Holds(20 + |data|);
    Put16Holds(id);
    Put16Holds(FragmentField(offset, more));
    assert FragmentField(offset, more) == offset / 8 + if more then 0x2000 else 0;
    hide Put16, Checksum.FilledField, FragmentField;
    HeadAt(a, b, c, Put16(Checksum.FilledField(PacketHead(id, offset, |data|, more), src + dst)), src, dst, data);
  }

  lemma HeadAt(
    a: seq<byte>, b: seq<byte>, c: seq<byte>, sum: seq<byte>, src: seq<byte>, dst: seq<byte>, data: seq<byte>)
    requires |a| == |b| == |c| == |sum| == 2 && |src| == |dst| == 4
    ensures var x := [0x45, 0] + a + b + c + [64, UDP] + sum + (src + dst) + data;
            && x[0] == 0x45 && x[1] == 0 && x[2] == a[0] && x[3] == a[1] && x[4] == b[0] && x[5] == b[1]
            && x[6] == c[0] && x[7] == c[1] && x[8] == 64 && x[9] == UDP
            && x[12..16] == src && x[16..20] == dst && x[20..] == data
  {
  }

  method IpPacket(src: seq<byte>, dst: seq<byte>, id: uint16, offset: nat, data: seq<byte>, more: bool)
    returns (r: seq<byte>)
    requires |src| == 4 && |dst| == 4
    ensures r == Packet(src, dst, id, offset, data, more)
  {
    var pkt := new byte[20 + |data|](_ => 0);
    var head := PacketHead(id, offset, |data|, more);
    assert pkt[..] == [] + Zeros(pkt.Length);
    AppendZeroed(pkt, 0, head, [], pkt.Length);
    assert [] + head == head;
    FillIpRest(pkt, src, dst, head, pkt.Length);
    ghost var ip := head + Put16(Checksum.FilledField(head, src + dst)) + (src + dst);
    AppendZeroed(pkt, 20, data, ip, |data|);
    r := pkt[..];
    assert (ip + data) + Zeros(0) == ip + data;
  }

  function PacketOf(d: Datagram, id: uint16, c: Cut, more: bool): seq<byte>
    requires d.Valid() && 0 <= c.off && 0 <= c.len && c.off + c.len <= 8 + |d.payload|
  {
    Packet(d.src, d.dst, id, c.off, d.Bytes()[c.off..c.off + c.len], more)
  }

  /** The packets of the first k cuts, in order. */
  function Packets(d: Datagram, id: uint16, cs: seq<Cut>, k: nat): (ps: seq<seq<byte>>)
    requires d.Valid() && k <= |cs|
    requires forall c :: c in cs ==> 0 <= c.off && 0 <= c.len && c.off + c.len <= 8 + |d.payload|
    ensures |ps| == k
  {
    seq(k, i requires 0 <= i < k => PacketOf(d, id, cs[i], i < |cs| - 1))
  }

  function Reversed<T>(s: seq<T>): (r: seq<T>)
    ensures |r| == |s| && forall i :: 0 <= i < |s| ==> r[i] == s[|s| - 1 - i]
  {
    seq(|s|, i requires 0 <= i < |s| => s[|s| - 1 - i])
  }

  method ReverseInPlace<T>(a: array<T>)
    modifies a
    ensures a[..] == Reversed(old(a[..]))
  {
    var i, j := 0, a.Length - 1;
    while i < j
      invariant 0 <= i <= a.Length && i + j == a.Length - 1
      invariant forall k :: 0 <= k < i || j < k < a.Length ==> a[k] == old(a[a.Length - 1 - k])
      invariant forall k :: i <= k <= j ==> a[k] == old(a[k])
    {
      a[i], a[j] := a[j], a[i];
      i, j := i + 1, j - 1;
    }
  }

  /** Ports and length, then the payload, and last the checksum between them. */
  method BuildDatagram(pseudo: seq<byte>, ports: seq<byte>, payload: seq<byte>) returns (r: seq<byte>)
    requires |pseudo| == 12 && |ports| == 6
    ensures |r| == 8 + |payload|
    ensures 20 + |payload| <= Checksum.SAFE_LENGTH ==>
            r == ports + Put16(Checksum.UdpField(pseudo + ports, payload)) + payload
  {
    hide Checksum.UdpField, Put16;
    var l4 := new byte[8 + |payload|](_ => 0);
    assert l4[..] == [] + Zeros(l4.Length);
    AppendZeroed(l4, 0, ports, [], l4.Length);
    assert [] + ports == ports;
    Absorb(ports, l4.Length - 6, 2);
    AppendZeroed(l4, 8, payload, ports + Zeros(2), |payload|);
    assert (ports + Zeros(2) + payload) + Zeros(0) == ports + Zeros(2) + payload;
    assert l4[..6] == ports && l4[8..] == payload;
    var sum := UdpChecksum(pseudo + l4[..6], l4[8..]);
    Patch(l4, 6, sum, ports, Zeros(2), payload);
    r := l4[..];
  }

  /** A computed zero is stored as 0xffff. */
  method UdpChecksum(head: seq<byte>, data: seq<byte>) returns (c: uint16)
    requires |head| == 18
    ensures 20 + |data| <= Checksum.SAFE_LENGTH ==> c == Checksum.UdpField(head, data)
  {
    hide Checksum.FilledField;
    c := ZeroedSum(head, data);
    if c == 0 {
      c := 0xffff;
    }
  }

  datatype Built = Fragments(packets: seq<seq<byte>>) | Unbuilt(why: Refusal)

  function BuiltOf(d: Datagram, p: Plan, id: uint16): Built
    requires d.Valid()
  {
    match CutsOf(8 + |d.payload|, p)
    case Refused(why) => Unbuilt(why)
    case Planned(cs) =>
      AcceptedIsWellCut(8 + |d.payload|, p);
      CutsInside(cs, 8 + |d.payload|);
      Fragments(if p.disorder then Reversed(Packets(d, id, cs, |cs|)) else Packets(d, id, cs, |cs|))
  }

  lemma CutsInside(cs: seq<Cut>, total: int)
    requires WellCut(cs, total)
    ensures forall c :: c in cs ==> 0 <= c.off && 0 <= c.len && c.off + c.len <= total
  {
  }

  method BuildFragments(d: Datagram, p: Plan, id: uint16) returns (r: Built)
    requires d.Valid()
    ensures 20 + |d.payload| <= Checksum.SAFE_LENGTH ==> r == BuiltOf(d, p, id)
  {
    hide CutsOf, Packet, UdpPseudo, UdpPorts, Checksum.UdpField, Put16;
    var size := |d.payload|;
    var l4 := BuildDatagram(UdpPseudo(d.src, d.dst, Truncate16(8 + size)), UdpPorts(d.sport, d.dport, size), d.payload);
    var planned := PlanCuts(|l4|, p);
    if planned.Refused? {
      return Unbuilt(planned.why);
    }
    var cs := planned.cuts;
    AcceptedIsWellCut(|l4|, p);
    CutsInside(cs, |l4|);
    var out := new seq<byte>[|cs|];
    for i := 0 to |cs|
      invariant 20 + |d.payload| <= Checksum.SAFE_LENGTH ==> out[..i] == Packets(d, id, cs, i)
    {
      out[i] := IpPacket(d.src, d.dst, id, cs[i].off, l4[cs[i].off..cs[i].off + cs[i].len], i != |cs| - 1);
      assert out[..i + 1] == out[..i] + [out[i]];
    }
    assert out[..] == out[..|cs|];
    if p.disorder {
      ReverseInPlace(out);
    }
    r := Fragments(out[..]);
  }
}
