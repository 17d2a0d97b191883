/** The answer to a STUN binding request (sections 6, 15 and 15.2 of RFC 5389). */
module Stun {
  import opened Bits

  type Bytes = seq<byte>

  const RESPONSE: uint16 := 0x0101
  const COOKIE: Bytes := [0x21, 0x12, 0xa4, 0x42]
  const XOR_MAPPED: uint16 := 0x0020
  const HEADER: nat := 20

  datatype Refusal = Short | NotResponse | NoCookie | OtherTransaction | LengthTooLarge
                   | ShortAddress | ShortV6 | UnknownFamily

  /** NoAddress is a good answer all the same: it came back to our transaction. */
  datatype Reply = Refused(why: Refusal) | NoAddress | Mapped(ip: Bytes, port: uint16)

  // ------------------------------------------------------------------ reading

  /** The sixteen bytes an address is masked with. */
  function Key(tx: Bytes): (k: Bytes)
    requires |tx| == 12
    ensures |k| == 16
  {
    COOKIE + tx
  }

  function Address(a: Bytes, tx: Bytes): Reply
    requires |tx| == 12
  {
    if |a| < 8 then Refused(ShortAddress)
    else
      var port := Get16(XorSeq(a[2..4], Key(tx)));
      if a[1] == 1 then Mapped(XorSeq(a[4..8], Key(tx)), port)
      else if a[1] == 2 then if |a| < 20 then Refused(ShortV6) else Mapped(XorSeq(a[4..20], Key(tx)), port)
      else Refused(UnknownFamily)
  }

  /** Zero to three bytes that bring a value to a whole number of words. */
  function Padding(size: nat): (n: nat)
    ensures n < 4 && (size + n) % 4 == 0
  {
    (4 - size % 4) % 4
  }

  /** The first mapped address among the attributes; anything cut off ends the search. */
  function FirstAddress(b: Bytes, tx: Bytes): Reply
    requires |tx| == 12
    decreases |b|
  {
    if |b| < 4 then NoAddress
    else
      var size := Get16(b[2..4]);
      if 4 + size > |b| then NoAddress
      else if Get16(b[..2]) == XOR_MAPPED then Address(b[4..4 + size], tx)
      else
        var step := 4 + size + Padding(size);
        if step > |b| then NoAddress else FirstAddress(b[step..], tx)
  }

  function ReplyOf(pkt: Bytes, tx: Bytes): Reply
    requires |tx| == 12
  {
    if |pkt| < HEADER then Refused(Short)
    else if Get16(pkt[..2]) != RESPONSE then Refused(NotResponse)
    else if pkt[4..8] != COOKIE then Refused(NoCookie)
    else if pkt[8..20] != tx then Refused(OtherTransaction)
    else
      var size := Get16(pkt[2..4]);
      if HEADER + size > |pkt| then Refused(LengthTooLarge) else FirstAddress(pkt[HEADER..HEADER + size], tx)
  }

  method ParseAddress(a: Bytes, tx: Bytes) returns (r: Reply)
    requires |tx| == 12
    ensures r == Address(a, tx)
  {
    if |a| < 8 {
      return Refused(ShortAddress);
    }
    var port := Get16(XorSeq(a[2..4], COOKIE));
    assert XorSeq(a[2..4], COOKIE) == XorSeq(a[2..4], Key(tx));
    if a[1] == 1 {
      assert XorSeq(a[4..8], COOKIE) == XorSeq(a[4..8], Key(tx));
      return Mapped(XorSeq(a[4..8], COOKIE), port);
    }
    if a[1] == 2 {
      if |a| < 20 {
        return Refused(ShortV6);
      }
      var key := COOKIE + tx;
      var ip := new byte[16];
      for i := 0 to 16
        invariant forall k :: 0 <= k < i ==> ip[k] == XorByte(a[4 + k], key[k])
      {
        ip[i] := XorByte(a[4 + i], key[i]);
      }
      assert ip[..] == XorSeq(a[4..20], Key(tx));
      return Mapped(ip[..], port);
    }
    r := Refused(UnknownFamily);
  }

  /** The loop that shrinks what is left; it ends on any bytes. */
  method ParseAttributes(attributes: Bytes, tx: Bytes) returns (r: Reply)
    requires |tx| == 12
    ensures r == FirstAddress(attributes, tx)
  {
    hide Address, Get16, Padding;
    var b := attributes;
    while |b| >= 4
      invariant FirstAddress(b, tx) == FirstAddress(attributes, tx)
      decreases |b|
    {
      var size := Get16(b[2..4]);
      if 4 + size > |b| {
        break;
      }
      if Get16(b[..2]) == XOR_MAPPED {
        r := ParseAddress(b[4..4 + size], tx);
        return;
      }
      var step := Step(size);
      if step > |b| {
        break;
      }
      b := b[step..];
    }
    r := NoAddress;
  }

  method Step(size: nat) returns (step: nat)
    ensures step == 4 + size + Padding(size)
  {
    step := 4 + size;
    var pad := size % 4;
    if pad != 0 {
      step := step + 4 - pad;
    }
  }

  method ParseBindingResponse(pkt: Bytes, tx: Bytes) returns (r: Reply)
    requires |tx| == 12
    ensures r == ReplyOf(pkt, tx)
  {
    if |pkt| < HEADER {
      return Refused(Short);
    }
    if Get16(pkt[..2]) != RESPONSE {
      return Refused(NotResponse);
    }
    if pkt[4..8] != COOKIE {
      return Refused(NoCookie);
    }
    for i := 0 to 12
      invariant forall k :: 0 <= k < i ==> pkt[8 + k] == tx[k]
    {
      if pkt[8 + i] != tx[i] {
        assert pkt[8..20][i] != tx[i];
        return Refused(OtherTransaction);
      }
    }
    assert pkt[8..20] == tx;
    var size := Get16(pkt[2..4]);
    if HEADER + size > |pkt| {
      return Refused(LengthTooLarge);
    }
    r := ParseAttributes(pkt[HEADER..HEADER + size], tx);
  }

  // ------------------------------------------------------------------ what a server writes

  datatype Attribute = Attribute(kind: uint16, value: Bytes, filler: byte)

  function AttributeBytes(a: Attribute): (b: Bytes)
    ensures |b| == 4 + |a.value| + Padding(|a.value|)
  {
    Put16(a.kind) + Put16(Truncate16(|a.value|)) + a.value + seq(Padding(|a.value|), _ => a.filler)
  }

  function AllAttributes(attrs: seq<Attribute>): Bytes {
    if attrs == [] then [] else AttributeBytes(attrs[0]) + AllAttributes(attrs[1..])
  }

  function Response(tx: Bytes, attrs: seq<Attribute>): Bytes
    requires |tx| == 12 && |AllAttributes(attrs)| <= 0xffff
  {
    Put16(RESPONSE) + Put16(|AllAttributes(attrs)|) + COOKIE + tx + AllAttributes(attrs)
  }

  /** Section 15.2: family, then port and address under the mask. */
  function MappedValue(ip: Bytes, port: uint16, tx: Bytes): Bytes
    requires |tx| == 12 && |ip| in {4, 16}
  {
    [0, if |ip| == 4 then 1 else 2] + XorSeq(Put16(port), Key(tx)) + XorSeq(ip, Key(tx))
  }

  function FirstMapped(attrs: seq<Attribute>, tx: Bytes): Reply
    requires |tx| == 12
  {
    if attrs == [] then NoAddress
    else if attrs[0].kind == XOR_MAPPED then Address(attrs[0].value, tx)
    else FirstMapped(attrs[1..], tx)
  }

  lemma AttributeAt(a: Attribute, rest: Bytes)
    requires |a.value| <= 0xffff
    ensures var b := AttributeBytes(a) + rest;
            && Get16(b[..2]) == a.kind && Get16(b[2..4]) == |a.value| && b[4..4 + |a.value|] == a.value
            && b[4 + |a.value| + Padding(|a.value|)..] == rest
  {
    hide Get16, Put16, Padding;
    var b := AttributeBytes(a) + rest;
    assert b[..2] == Put16(a.kind);
    assert b[2..4] == Put16(Truncate16(|a.value|));
  }

  lemma {:induction false} AttributesRead(attrs: seq<Attribute>, b: Bytes, tx: Bytes)
    requires |tx| == 12 && b == AllAttributes(attrs) && forall a :: a in attrs ==> |a.value| <= 0xffff
    ensures FirstAddress(b, tx) == FirstMapped(attrs, tx)
    decreases |attrs|
  {
    hide AttributeBytes, Get16, Padding, Address;
    if attrs != [] {
      AttributeAt(attrs[0], AllAttributes(attrs[1..]));
      AttributesRead(attrs[1..], AllAttributes(attrs[1..]), tx);
    }
  }

  /** Every list of padded attributes: the first mapped address is read, whatever precedes it or follows the message. */
  lemma ResponseRead(tx: Bytes, attrs: seq<Attribute>, more: Bytes)
    requires |tx| == 12 && |AllAttributes(attrs)| <= 0xffff && forall a :: a in attrs ==> |a.value| <= 0xffff
    ensures ReplyOf(Response(tx, attrs) + more, tx) == FirstMapped(attrs, tx)
  {
    hide Get16, Put16, AllAttributes, FirstAddress, FirstMapped;
    var all := AllAttributes(attrs);
    var pkt := Response(tx, attrs) + more;
    assert pkt[..2] == Put16(RESPONSE) && pkt[2..4] == Put16(|all|);
    assert pkt[4..8] == COOKIE && pkt[8..20] == tx;
    assert pkt[HEADER..HEADER + |all|] == all;
    AttributesRead(attrs, all, tx);
  }

  /** Address and port of either family come back from under the mask. */
  lemma MappedRead(ip: Bytes, port: uint16, tx: Bytes)
    requires |tx| == 12 && |ip| in {4, 16}
    ensures Address(MappedValue(ip, port, tx), tx) == Mapped(ip, port)
  {
    hide XorSeq, Put16, Get16;
    var a, key := MappedValue(ip, port, tx), Key(tx);
    XorSeqTwice(Put16(port), key);
    XorSeqTwice(ip, key);
    assert a[2..4] == XorSeq(Put16(port), key);
    assert a[4..4 + |ip|] == XorSeq(ip, key);
  }

  /** Any attributes, then ours: skipped down to the original address. */
  lemma {:induction false} AddressFound(
    before: seq<Attribute>, ip: Bytes, port: uint16, filler: byte, after: seq<Attribute>, tx: Bytes)
    requires |tx| == 12 && |ip| in {4, 16} && forall a :: a in before ==> a.kind != XOR_MAPPED
    ensures FirstMapped(before + [Attribute(XOR_MAPPED, MappedValue(ip, port, tx), filler)] + after, tx) ==
            Mapped(ip, port)
    decreases |before|
  {
    var all := before + [Attribute(XOR_MAPPED, MappedValue(ip, port, tx), filler)] + after;
    if before == [] {
      MappedRead(ip, port, tx);
    } else {
      AddressFound(before[1..], ip, port, filler, after, tx);
      assert all[1..] == before[1..] + [Attribute(XOR_MAPPED, MappedValue(ip, port, tx), filler)] + after;
    }
  }

  /** Nothing but an answer to our own transaction is accepted. */
  lemma OnlyOurTransaction(pkt: Bytes, tx: Bytes)
    requires |tx| == 12 && !ReplyOf(pkt, tx).Refused?
    ensures |pkt| >= HEADER && pkt[8..20] == tx && pkt[4..8] == [0x21, 0x12, 0xa4, 0x42] && pkt[..2] == [1, 1]
    ensures forall other: Bytes :: |other| == 12 && other != tx ==> ReplyOf(pkt, other) == Refused(OtherTransaction)
  {
  }

  const SampleTx: Bytes := [0xb7, 0xe7, 0xa7, 0x01, 0xbc, 0x34, 0xd6, 0x86, 0xfa, 0x87, 0xdf, 0xae]

  /** The address of the sample response in section 2.2 of RFC 5769, under its transaction. */
  lemma Sample()
    ensures Address([0x00, 0x01, 0xa1, 0x47, 0xe1, 0x12, 0xa6, 0x43], SampleTx) == Mapped([192, 0, 2, 1], 32853)
  {
    hide Xor;
    var a := [0x00, 0x01, 0xa1, 0x47, 0xe1, 0x12, 0xa6, 0x43];
    SampleFirst();
    SampleLast();
    XorSelf(0x12);
    assert XorSeq(a[2..4], Key(SampleTx)) == [0x80, 0x55];
    assert XorSeq(a[4..8], Key(SampleTx)) == [0xc0, 0, 2, 1];
  }

  /** A whole answer byte by byte: an eight-byte address is its only attribute. */
  lemma AnswerByIndex(pkt: Bytes, tx: Bytes)
    requires |tx| == 12 && |pkt| == 32 && pkt[8..20] == tx
    requires pkt[0] == 1 && pkt[1] == 1 && pkt[2] == 0 && pkt[3] == 12
    requires pkt[4] == 0x21 && pkt[5] == 0x12 && pkt[6] == 0xa4 && pkt[7] == 0x42
    requires pkt[20] == 0 && pkt[21] == 0x20 && pkt[22] == 0 && pkt[23] == 8
    ensures ReplyOf(pkt, tx) == Address(pkt[24..], tx)
  {
    hide Address, FirstAddress;
    var body := pkt[20..32];
    FirstByIndex(body, tx);
    assert body[4..] == pkt[24..] && pkt[4..8] == COOKIE;
  }

  lemma FirstByIndex(b: Bytes, tx: Bytes)
    requires |tx| == 12 && |b| == 12 && b[0] == 0 && b[1] == 0x20 && b[2] == 0 && b[3] == 8
    ensures FirstAddress(b, tx) == Address(b[4..], tx)
  {
    hide Address;
    assert b[4..12] == b[4..];
  }

  lemma SampleFirst()
    ensures Xor(0xa1, 0x21) == 0x80 && Xor(0x47, 0x12) == 0x55
  {
    SampleNibbles();
    hide Xor;
    XorNibbles(0xa, 1, 2, 1);
    XorNibbles(4, 7, 1, 2);
    XorSelf(1);
  }

  lemma SampleLast()
    ensures Xor(0xe1, 0x21) == 0xc0 && Xor(0xa6, 0xa4) == 2 && Xor(0x43, 0x42) == 1
  {
    SampleNibbles();
    hide Xor;
    XorNibbles(0xe, 1, 2, 1);
    XorNibbles(0xa, 6, 0xa, 4);
    XorNibbles(4, 3, 4, 2);
    XorSelf(1);
    XorSelf(4);
    XorSelf(0xa);
  }

  lemma SampleNibbles()
    ensures Xor(0xa, 2) == 8 && Xor(4, 1) == 5 && Xor(7, 2) == 5
    ensures Xor(0xe, 2) == 0xc && Xor(6, 4) == 2 && Xor(3, 2) == 1
  {
    hide Xor;
    XorHalves(1, 0);
    XorHalves(2, 0);
    XorHalves(2, 1);
    XorHalves(5, 1);
    XorHalves(0xa, 2);
    XorHalves(4, 1);
    XorHalves(3, 1);
    XorHalves(7, 2);
    XorHalves(7, 1);
    XorHalves(0xe, 2);
    XorHalves(1, 1);
    XorHalves(3, 2);
    XorHalves(6, 4);
    XorZero(0);
    XorZero(1);
    XorZero(2);
    XorZero(3);
    XorZero(5);
  }
}
