/** Building and parsing a QUIC Initial (section 17.2.2 of RFC 9000, section 5 of RFC 9001). */
module QuicInitial {
  import opened Bits
  import Varint
  import opened QuicFrames
  import opened QuicProtection
  import opened Options

  const V2: uint32 := 0x6b33_43cf

  function InitialType(v: uint32): byte {
    if v == V2 then 1 else 0
  }

  function RetryType(v: uint32): byte {
    if v == V2 then 0 else 3
  }

  // ------------------------------------------------------------------ the sender

  datatype CryptoFrame = CryptoFrame(offset: Varint.uint64, data: Bytes)

  datatype Initial = Initial(
    version: uint32, dcid: Bytes, scid: Bytes, token: Bytes,
    packetNumber: uint32, pnLen: int,
    crypto: seq<CryptoFrame>, datagramLen: int, clearFixedBit: bool)

  datatype Fault = LongId | BadNumberLength | TooSmall | TooLong | NoSample

  datatype Result = Ok(packet: Bytes) | Err(fault: Fault)

  /** Conversion to 64 bits drops the higher ones. */
  function Uint64(n: nat): Varint.uint64 {
    if n < 0x1_0000_0000_0000_0000 then n else Uint64(n - 0x1_0000_0000_0000_0000)
  }

  function CryptoBytes(f: CryptoFrame): Bytes {
    [6] + Varint.Encode(f.offset) + (Varint.Encode(Uint64(|f.data|)) + f.data)
  }

  function AllCrypto(fs: seq<CryptoFrame>): Bytes {
    if fs == [] then [] else CryptoBytes(fs[0]) + AllCrypto(fs[1..])
  }

  /** Header bytes, the packet number included. */
  function HeaderLen(p: Initial): int {
    7 + |p.dcid| + |p.scid| + |Varint.Encode(Uint64(|p.token|))| + |p.token| + 2 + p.pnLen
  }

  /** Padding that brings the datagram to the wanted size. */
  function Fill(p: Initial): int {
    if p.datagramLen > 0 then p.datagramLen - HeaderLen(p) - TAG - |AllCrypto(p.crypto)| else 0
  }

  function LeadByte(p: Initial): (f: byte)
    requires 1 <= p.pnLen <= 4
    ensures f >= 0x80 && f / 0x10 % 4 == InitialType(p.version) && f % 4 + 1 == p.pnLen
  {
    (if p.clearFixedBit then 0x80 else 0xc0) + InitialType(p.version) * 0x10 + p.pnLen - 1
  }

  /** From the version to the length field. */
  function Middle(p: Initial, length: nat): Bytes
    requires |p.dcid| <= 255 && |p.scid| <= 255
  {
    Put32(p.version) + [|p.dcid|] + p.dcid + [|p.scid|] + p.scid
    + Varint.Encode(Uint64(|p.token|)) + p.token + Varint.Digits(length + 0x4000, 2)
  }

  /** Sealing under ks and masking n packet number bytes after the front. */
  function Protect(suite: Suite, ks: KeySet, front: Bytes, pn: uint32, n: nat, payload: Bytes): Bytes
    requires suite.Sound() && |ks.iv| >= 4 && front != [] && 1 <= n <= 4 && n + |payload| >= 4
  {
    var header := front + Varint.Digits(pn, n);
    var plain := header + suite.seal(ks.key, Nonce(ks.iv, pn), payload, header);
    Masked(plain, suite.mask(ks.hp, plain[|front| + 4..|front| + 4 + SAMPLE]), |front|, n)
  }

  /** The datagram an Initial becomes under the given keys. */
  function Datagram(suite: Suite, p: Initial, ks: KeySet): Result
    requires suite.Sound() && |ks.iv| >= 4
  {
    if |p.dcid| > 255 || |p.scid| > 255 then Err(LongId)
    else if p.pnLen < 1 || p.pnLen > 4 then Err(BadNumberLength)
    else if Fill(p) < 0 then Err(TooSmall)
    else
      var payload := AllCrypto(p.crypto) + Zeros(Fill(p));
      var length := p.pnLen + |payload| + TAG;
      if length > 16383 then Err(TooLong)
      else if p.pnLen + |payload| < 4 then Err(NoSample)
      else Ok(Protect(suite, ks, [LeadByte(p)] + Middle(p, length), p.packetNumber, p.pnLen, payload))
  }

  method AppendPacketNumber(b: Bytes, pn: uint32, n: nat) returns (r: Bytes)
    ensures r == b + Varint.Digits(pn, n)
  {
    r := b;
    var i := n;
    ghost var d := Varint.Digits(pn, n);
    while i > 0
      invariant 0 <= i <= n && r == b + d[..n - i]
    {
      DigitAt(pn, n, i - 1);
      assert d[..n - i + 1] == d[..n - i] + [d[n - i]];
      r := r + [pn / Varint.Pow256(i - 1) % 0x100];
      i := i - 1;
    }
    assert d[..n] == d;
  }

  method AppendCrypto(fs: seq<CryptoFrame>) returns (payload: Bytes)
    ensures payload == AllCrypto(fs)
  {
    payload := [];
    for i := 0 to |fs|
      invariant AllCrypto(fs) == payload + AllCrypto(fs[i..])
    {
      payload := AppendFrame(payload, fs[i], fs[i..]);
    }
  }

  method AppendFrame(b: Bytes, f: CryptoFrame, ghost fs: seq<CryptoFrame>) returns (r: Bytes)
    requires fs != [] && f == fs[0]
    ensures r + AllCrypto(fs[1..]) == b + AllCrypto(fs)
  {
    var frame := [6];
    frame := frame + Varint.Encode(f.offset);
    frame := frame + (Varint.Encode(Uint64(|f.data|)) + f.data);
    r := b + frame;
    Associates(b, frame, AllCrypto(fs[1..]));
  }

  lemma Associates(a: Bytes, b: Bytes, c: Bytes)
    ensures a + b + c == a + (b + c)
  {
  }

  /** The header up to the length field, piece after piece. */
  method BuildFront(first: byte, p: Initial, v: Bytes, tokenLength: Bytes, length: Bytes) returns (hdr: Bytes)
    requires |p.dcid| <= 255 && |p.scid| <= 255
    ensures hdr == [first] + (v + [|p.dcid|] + p.dcid + [|p.scid|] + p.scid + tokenLength + p.token + length)
  {
    var m := v;
    m := m + [|p.dcid|];
    m := m + p.dcid;
    m := m + [|p.scid|];
    m := m + p.scid;
    m := m + tokenLength;
    m := m + p.token;
    m := m + length;
    hdr := [first] + m;
  }

  method SealAndMask(suite: Suite, ks: KeySet, front: Bytes, pn: uint32, n: nat, payload: Bytes) returns (r: Result)
    requires suite.Sound() && |ks.iv| >= 4 && front != [] && 1 <= n <= 4
    ensures r == if n + |payload| < 4 then Err(NoSample) else Ok(Protect(suite, ks, front, pn, n, payload))
  {
    hide Nonce, Masked;
    var hdr := AppendPacketNumber(front, pn, n);
    var nonce := MakeNonce(ks.iv, pn);
    var plain := hdr + suite.seal(ks.key, nonce, payload, hdr);
    var pkt := new byte[|plain|](i requires 0 <= i < |plain| => plain[i]);
    assert pkt[..] == plain;
    assert pkt.Length >= |front| + 4 + SAMPLE ==>
        pkt[|front| + 4..|front| + 4 + SAMPLE] == plain[|front| + 4..|front| + 4 + SAMPLE];
    var ok := ApplyHeaderProtection(pkt, suite, ks.hp, |front|, n);
    if !ok {
      return Err(NoSample);
    }
    r := Ok(pkt[..]);
  }

  /** Assembles the datagram under the client's keys. */
  method Marshal(suite: Suite, p: Initial) returns (r: Result)
    requires suite.Sound()
    ensures r == Datagram(suite, p, suite.derive(p.dcid, p.version).0)
  {
    hide Put32, Varint.Encode, Varint.Digits, Protect;
    if |p.dcid| > 255 || |p.scid| > 255 {
      return Err(LongId);
    }
    if p.pnLen < 1 || p.pnLen > 4 {
      return Err(BadNumberLength);
    }
    var client := suite.derive(p.dcid, p.version).0;
    var payload := AppendCrypto(p.crypto);
    var hdrLen := 1 + 4 + 1 + |p.dcid| + 1 + |p.scid|;
    hdrLen := hdrLen + |Varint.Encode(Uint64(|p.token|))| + |p.token|;
    hdrLen := hdrLen + 2 + p.pnLen;
    if p.datagramLen > 0 {
      var want := p.datagramLen - hdrLen - TAG;
      if want < |payload| {
        return Err(TooSmall);
      }
      payload := payload + Zeros(want - |payload|);
    } else {
      assert payload + Zeros(0) == payload;
    }
    assert payload == AllCrypto(p.crypto) + Zeros(Fill(p));
    var length := p.pnLen + |payload| + TAG;
    if length > 16383 {
      return Err(TooLong);
    }
    var first := 0xc0 + InitialType(p.version) * 0x10 + p.pnLen - 1;
    if p.clearFixedBit {
      first := first - 0x40;
    }
    var front :=
      BuildFront(first, p, Put32(p.version), Varint.Encode(Uint64(|p.token|)), Varint.Digits(length + 0x4000, 2));
    r := SealAndMask(suite, client, front, p.packetNumber, p.pnLen, payload);
  }

  // ------------------------------------------------------------------ the reader

  datatype Kind = Foreign | Negotiation | Retry | Answer

  datatype Response = Response(
    kind: Kind, version: uint32, dcid: Bytes, scid: Bytes, frames: seq<Frame>, versions: seq<uint32>)

  /** Crash is the run-time error of a slice whose end lies before its start. */
  datatype Outcome = Error | Crash | Read(response: Response)

  const UNKNOWN := Response(Foreign, 0, [], [], [], [])

  datatype Front = Cut | Short | Long(version: uint32, dcid: Bytes, scid: Bytes, size: nat)

  function FrontOf(pkt: Bytes): (f: Front)
    ensures f.Long? ==> 7 <= f.size <= |pkt|
  {
    if |pkt| < 7 then Cut
    else if pkt[0] < 0x80 then Short
    else if 6 + pkt[5] >= |pkt| then Cut
    else
      var d, s := pkt[5], pkt[6 + pkt[5]];
      if 7 + d + s > |pkt| then Cut
      else Long(Get32(pkt[1..5]), pkt[6..6 + d], pkt[7 + d..7 + d + s], 7 + d + s)
  }

  function Versions(b: Bytes): seq<uint32>
    decreases |b|
  {
    if |b| < 4 then [] else [Get32(b)] + Versions(b[4..])
  }

  /** Past the token, where the packet number starts and the declared length. */
  function Fields(pkt: Bytes, off: nat): (r: Option<(nat, nat)>)
    requires off <= |pkt|
    ensures r.Some? ==> off < r.value.0 && r.value.0 + r.value.1 <= |pkt|
  {
    var (tok, n) := Varint.Decode(pkt[off..]);
    if n == 0 || off + n + tok > |pkt| then None
    else
      var at := off + n + tok;
      var (length, m) := Varint.Decode(pkt[at..]);
      if m == 0 || at + m + length > |pkt| then None else Some((at + m, length))
  }

  predicate HasSample(pkt: Bytes, at: nat) {
    |pkt| >= at + 4 + SAMPLE
  }

  function Bare(suite: Suite, ks: KeySet, pkt: Bytes, at: nat): (b: Bytes)
    requires suite.Sound() && 1 <= at && HasSample(pkt, at)
    ensures |b| == |pkt|
  {
    Unmasked(pkt, suite.mask(ks.hp, pkt[at + 4..at + 4 + SAMPLE]), at)
  }

  function NumberLength(first: byte): (n: nat)
    ensures 1 <= n <= 4
  {
    first % 4 + 1
  }

  /** Opening what remains when the mask is off. */
  function Unsealed(suite: Suite, ks: KeySet, bare: Bytes, at: nat, length: nat): Option<Bytes>
    requires |ks.iv| >= 4 && 1 <= at && at + length <= |bare| && NumberLength(bare[0]) <= length
  {
    var n := NumberLength(bare[0]);
    suite.open(ks.key, Nonce(ks.iv, NumberOf(bare[at..at + n])), bare[at + n..at + length], bare[..at + n])
  }

  function NumberOf(b: Bytes): uint32
    requires |b| <= 4
  {
    ShortNumber(b);
    Varint.Shifted(0, b)
  }

  lemma {:induction false} ShortNumber(b: Bytes)
    ensures Varint.Shifted(0, b) < Varint.Pow256(|b|)
    ensures |b| <= 4 ==> Varint.Pow256(|b|) <= 0x1_0000_0000
    decreases |b|
  {
    if b != [] {
      ShortNumber(b[..|b| - 1]);
    }
  }

  function Protected(suite: Suite, ks: KeySet, pkt: Bytes, front: Front, at: nat, length: nat): Outcome
    requires suite.Sound() && |ks.iv| >= 4 && front.Long? && 1 <= at && at + length <= |pkt|
  {
    if !HasSample(pkt, at) then Read(UNKNOWN)
    else
      var bare := Bare(suite, ks, pkt, at);
      if length < NumberLength(bare[0]) then Crash
      else
        match Unsealed(suite, ks, bare, at, length)
        case None => Read(Response(Foreign, front.version, front.dcid, front.scid, [], []))
        case Some(plain) => Read(Response(Answer, front.version, front.dcid, front.scid, ParseFrames(plain), []))
  }

  /** What a datagram received for our connection identifier says. */
  function ParseOf(suite: Suite, pkt: Bytes, dcid: Bytes, v: uint32): Outcome
    requires suite.Sound()
  {
    match FrontOf(pkt)
    case Cut => Error
    case Short => Read(UNKNOWN)
    case Long(version, d, s, off) =>
      var kind := pkt[0] / 0x10 % 4;
      if version == 0 then Read(Response(Negotiation, version, d, s, [], Versions(pkt[off..])))
      else if kind == RetryType(v) && version == v then Read(Response(Retry, version, d, s, [], []))
      else if kind != InitialType(v) || version != v then Read(Response(Foreign, version, d, s, [], []))
      else
        match Fields(pkt, off)
        case None => Error
        case Some((at, length)) => Protected(suite, suite.derive(dcid, v).1, pkt, FrontOf(pkt), at, length)
  }

  method ReadVersions(pkt: Bytes, off: nat) returns (vs: seq<uint32>)
    requires off <= |pkt|
    ensures vs == Versions(pkt[off..])
  {
    hide Versions, Get32;
    vs := [];
    var i := off;
    while i + 4 <= |pkt|
      invariant off <= i <= |pkt|
      invariant Versions(pkt[off..]) == vs + Versions(pkt[i..])
    {
      NextVersion(pkt, i);
      vs := vs + [Get32(pkt[i..i + 4])];
      i := i + 4;
    }
    NoVersions(pkt[i..]);
  }

  lemma NextVersion(pkt: Bytes, i: nat)
    requires i + 4 <= |pkt|
    ensures Versions(pkt[i..]) == [Get32(pkt[i..i + 4])] + Versions(pkt[i + 4..])
  {
    assert pkt[i..][4..] == pkt[i + 4..];
    assert Get32(pkt[i..]) == Get32(pkt[i..i + 4]);
  }

  lemma NoVersions(b: Bytes)
    requires |b| < 4
    ensures Versions(b) == []
  {
  }

  method ReadNumber(buf: Bytes) returns (pn: uint32)
    requires |buf| <= 4
    ensures pn == NumberOf(buf)
  {
    var v: nat := 0;
    for i := 0 to |buf|
      invariant v == Varint.Shifted(0, buf[..i])
    {
      assert buf[..i + 1][..i] == buf[..i];
      v := v * 0x100 + buf[i];
    }
    assert buf[..|buf|] == buf;
    ShortNumber(buf);
    pn := v;
  }

  /** Unmasks a copy, puts back the bytes beyond the packet number, and opens the rest. */
  method ReadProtected(suite: Suite, ks: KeySet, pkt: Bytes, front: Front, at: nat, length: nat) returns (r: Outcome)
    requires suite.Sound() && |ks.iv| >= 4 && front.Long? && 1 <= at && at + length <= |pkt|
    ensures r == Protected(suite, ks, pkt, front, at, length)
  {
    hide Bare, Nonce, NumberOf, HasSample, ParseFrames;
    if !HasSample(pkt, at) {
      return Read(UNKNOWN);
    }
    var bare := ReadBare(suite, ks, pkt, at);
    var pnLen := bare[0] % 4 + 1;
    if length < pnLen {
      return Crash;
    }
    var pn := ReadNumber(bare[at..at + pnLen]);
    var nonce := MakeNonce(ks.iv, pn);
    match suite.open(ks.key, nonce, bare[at + pnLen..at + length], bare[..at + pnLen])
    case None =>
      r := Read(Response(Foreign, front.version, front.dcid, front.scid, [], []));
    case Some(plain) =>
      var frames := ReadFrames(plain);
      r := Read(Response(Answer, front.version, front.dcid, front.scid, frames, []));
  }

  method ReadBare(suite: Suite, ks: KeySet, pkt: Bytes, at: nat) returns (bare: Bytes)
    requires suite.Sound() && 1 <= at && HasSample(pkt, at)
    ensures bare == Bare(suite, ks, pkt, at)
  {
    hide Masked;
    var buf := new byte[|pkt|](i requires 0 <= i < |pkt| => pkt[i]);
    assert buf[..] == pkt;
    assert buf[at + 4..at + 4 + SAMPLE] == pkt[at + 4..at + 4 + SAMPLE];
    var _ := ApplyHeaderProtection(buf, suite, ks.hp, at, 4);
    ghost var four := buf[..];
    assert buf[0] == four[0];
    RestoreBytes(buf, pkt, at + NumberLength(buf[0]), at + 4);
    bare := buf[..];
  }

  /** Puts the bytes of pkt back into buf between two places. */
  method RestoreBytes(buf: array<byte>, pkt: Bytes, start: nat, end: nat)
    requires start <= end <= buf.Length == |pkt|
    modifies buf
    ensures buf[..] == old(buf[..start]) + pkt[start..end] + old(buf[end..])
  {
    for i := start to end
      invariant forall k :: start <= k < i ==> buf[k] == pkt[k]
      invariant forall k :: 0 <= k < buf.Length && !(start <= k < i) ==> buf[k] == old(buf[k])
    {
      buf[i] := pkt[i];
    }
  }

  method Parse(suite: Suite, pkt: Bytes, dcid: Bytes, v: uint32) returns (r: Outcome)
    requires suite.Sound()
    ensures r == ParseOf(suite, pkt, dcid, v)
  {
    if |pkt| < 7 {
      return Error;
    }
    if pkt[0] < 0x80 {
      return Read(UNKNOWN);
    }
    var version := Get32(pkt[1..5]);
    var off := 5;
    var dcidLen := pkt[off];
    off := off + 1;
    if off + dcidLen > |pkt| {
      return Error;
    }
    var d := pkt[off..off + dcidLen];
    off := off + dcidLen;
    if off >= |pkt| {
      return Error;
    }
    var scidLen := pkt[off];
    off := off + 1;
    if off + scidLen > |pkt| {
      return Error;
    }
    var s := pkt[off..off + scidLen];
    off := off + scidLen;
    assert FrontOf(pkt) == Long(version, d, s, off);
    if version == 0 {
      var versions := ReadVersions(pkt, off);
      return Read(Response(Negotiation, version, d, s, [], versions));
    }
    var kind := pkt[0] / 0x10 % 4;
    if kind == RetryType(v) && version == v {
      return Read(Response(Retry, version, d, s, [], []));
    }
    if kind != InitialType(v) || version != v {
      return Read(Response(Foreign, version, d, s, [], []));
    }
    r := ParseInitial(suite, pkt, dcid, v, Long(version, d, s, off));
  }

  method ParseInitial(suite: Suite, pkt: Bytes, dcid: Bytes, v: uint32, front: Front) returns (r: Outcome)
    requires suite.Sound() && front.Long? && front == FrontOf(pkt)
    ensures r == match Fields(pkt, front.size)
                 case None => Error
                 case Some((at, length)) => Protected(suite, suite.derive(dcid, v).1, pkt, front, at, length)
  {
    var fields := ReadFields(pkt, front.size);
    if fields.None? {
      return Error;
    }
    var server := suite.derive(dcid, v).1;
    r := ReadProtected(suite, server, pkt, front, fields.value.0, fields.value.1);
  }

  method ReadFields(pkt: Bytes, start: nat) returns (r: Option<(nat, nat)>)
    requires start <= |pkt|
    ensures r == Fields(pkt, start)
  {
    var tok, n := Varint.Read(pkt[start..]);
    if n == 0 || start + n + tok > |pkt| {
      return None;
    }
    var off := start + n + tok;
    var length, m := Varint.Read(pkt[off..]);
    if m == 0 {
      return None;
    }
    off := off + m;
    if off + length > |pkt| {
      return None;
    }
    r := Some((off, length));
  }
}
