/** What a reader makes of a built QUIC Initial: protection, padding and the declared length. */
module QuicRoundTrip {
  import opened Bits
  import Varint
  import opened QuicFrames
  import opened QuicProtection
  import opened QuicInitial
  import opened Options

  // ------------------------------------------------------------------ the payload

  /** The frames a reader sees: offsets keep their low 62 bits, all padding is one frame. */
  function FramesOf(fs: seq<CryptoFrame>, fill: nat): seq<Frame> {
    if fs == [] then if fill == 0 then [] else [Padding(fill)]
    else [Crypto(Varint.Low(fs[0].offset), fs[0].data)] + FramesOf(fs[1..], fill)
  }

  lemma {:induction false} PayloadRead(fs: seq<CryptoFrame>, fill: nat)
    requires forall f :: f in fs ==> |f.data| < Varint.LIMIT
    ensures ParseFrames(AllCrypto(fs) + Zeros(fill)) == FramesOf(fs, fill)
    decreases |fs|
  {
    if fs == [] {
      PaddingRead(fill);
      assert AllCrypto(fs) + Zeros(fill) == Zeros(fill);
    } else {
      var f, e, rest := fs[0], CryptoBytes(fs[0]), AllCrypto(fs[1..]) + Zeros(fill);
      Associates(e, AllCrypto(fs[1..]), Zeros(fill));
      CryptoBytesRead(f, rest);
      FrameThenRest(e, rest, Crypto(Varint.Low(f.offset), f.data));
      PayloadRead(fs[1..], fill);
    }
  }

  lemma PaddingRead(fill: nat)
    ensures ParseFrames(Zeros(fill)) == if fill == 0 then [] else [Padding(fill)]
  {
    if fill > 0 {
      ZeroRunIs(Zeros(fill), fill);
      assert Zeros(fill)[fill..] == [];
    }
  }

  lemma CryptoBytesRead(f: CryptoFrame, rest: Bytes)
    requires |f.data| < Varint.LIMIT
    ensures CryptoBytes(f) != []
    ensures FrameAt(CryptoBytes(f) + rest) == Next(Crypto(Varint.Low(f.offset), f.data), |CryptoBytes(f)|)
  {
    CryptoBytesAre(f);
    CryptoRead(f.offset, f.data, rest);
  }

  lemma CryptoBytesAre(f: CryptoFrame)
    requires |f.data| < Varint.LIMIT
    ensures CryptoBytes(f) == [6] + Varint.Encode(f.offset) + Blob(f.data)
  {
    assert Uint64(|f.data|) == |f.data|;
  }

  lemma FrameThenRest(e: Bytes, rest: Bytes, f: Frame)
    requires e != [] && FrameAt(e + rest) == Next(f, |e|)
    ensures ParseFrames(e + rest) == [f] + ParseFrames(rest)
  {
    assert (e + rest)[|e|..] == rest;
  }

  lemma {:induction false} DataBounded(fs: seq<CryptoFrame>)
    ensures forall f :: f in fs ==> |f.data| <= |AllCrypto(fs)|
  {
    if fs != [] {
      DataBounded(fs[1..]);
    }
  }

  // ------------------------------------------------------------------ the header

  /** The bytes from the version to the identifiers. */
  function Ids(v: Bytes, d: Bytes, s: Bytes): (b: Bytes)
    requires |v| == 4 && |d| <= 255 && |s| <= 255
    ensures |b| == 6 + |d| + |s|
  {
    v + [|d|] + d + [|s|] + s
  }

  lemma FrontRead(x: Bytes, f: byte, v: Bytes, d: Bytes, s: Bytes, rest: Bytes)
    requires |v| == 4 && |d| <= 255 && |s| <= 255 && f >= 0x80
    requires x == ([f] + Ids(v, d, s)) + rest
    ensures FrontOf(x) == Long(Get32(v), d, s, 7 + |d| + |s|)
  {
    assert x[1..5] == v;
    assert x[5] == |d| && x[6 + |d|] == |s|;
    assert x[6..6 + |d|] == d && x[7 + |d|..7 + |d| + |s|] == s;
  }

  lemma FieldsRead(x: Bytes, head: Bytes, e: Bytes, tok: Bytes, l: Bytes, length: nat, rest: Bytes)
    requires Reads(e, |tok|) && |l| == 2 && Reads(l, length) && length <= |rest|
    requires x == head + (e + (tok + (l + rest)))
    ensures Fields(x, |head|) == Some((|head| + |e| + |tok| + 2, length))
  {
    assert x[|head|..] == e + (tok + (l + rest));
    assert x[|head| + |e| + |tok|..] == l + rest;
  }

  /** b is read as the given integer, whatever follows. */
  ghost predicate Reads(b: Bytes, value: nat) {
    b != [] && forall rest :: Varint.Decode(b + rest) == (value, |b|)
  }

  /** The two integers between the identifiers and the packet number, and what they read as. */
  lemma Integers(p: Initial, length: nat) returns (e: Bytes, l: Bytes)
    requires |p.dcid| <= 255 && |p.scid| <= 255 && |p.token| < Varint.LIMIT && length <= 16383
    ensures Middle(p, length) == Ids(Put32(p.version), p.dcid, p.scid) + e + p.token + l
    ensures Reads(e, |p.token|) && |l| == 2 && Reads(l, length)
  {
    e, l := Varint.Encode(|p.token|), Varint.Digits(length + 0x4000, 2);
    forall rest
      ensures Varint.Decode(e + rest) == (|p.token|, |e|)
    {
      Varint.RoundTrip(|p.token|, rest);
    }
    forall rest
      ensures Varint.Decode(l + rest) == (length, 2)
    {
      Varint.Sized(length, 2, rest);
    }
  }

  // ------------------------------------------------------------------ protection

  lemma {:induction false} NumberRead(pn: uint32, n: nat)
    requires 1 <= n <= 4 && pn < Varint.Pow256(n)
    ensures NumberOf(Varint.Digits(pn, n)) == pn
  {
    Varint.ShiftedDigits(0, pn, n);
  }

  /** Taking the mask off a protected packet, whatever was appended to it. */
  lemma BareInverts(suite: Suite, ks: KeySet, w: Bytes, at: nat, m: Bytes)
    requires suite.Sound() && 1 <= at && HasSample(w, at)
    requires m == suite.mask(ks.hp, w[at + 4..at + 4 + SAMPLE])
    ensures Bare(suite, ks, Masked(w, m, at, NumberLength(w[0])), at) == w
  {
    var x := Masked(w, m, at, NumberLength(w[0]));
    assert x[at + 4..at + 4 + SAMPLE] == w[at + 4..at + 4 + SAMPLE];
    UnmaskedInverts(w, m, at);
  }

  lemma MaskedAppend(p: Bytes, m: Bytes, at: nat, n: nat, more: Bytes)
    requires 1 <= at && n <= 4 && |m| == SAMPLE && at + n <= |p|
    ensures Masked(p + more, m, at, n) == Masked(p, m, at, n) + more
  {
  }

  /** What opening a sealed payload under the number read back gives. */
  function Opening(suite: Suite, ks: KeySet, header: Bytes, pn: uint32, n: nat, payload: Bytes): Option<Bytes>
    requires |ks.iv| >= 4 && n <= 4
  {
    suite.open(ks.key, Nonce(ks.iv, NumberOf(Varint.Digits(pn, n))),
               suite.seal(ks.key, Nonce(ks.iv, pn), payload, header), header)
  }

  lemma UnsealedIs(
    suite: Suite, ks: KeySet, header: Bytes, at: nat, n: nat, pn: uint32, payload: Bytes, c: Bytes, more: Bytes)
    requires suite.Sound() && |ks.iv| >= 4 && 1 <= at && 1 <= n <= 4 && |header| == at + n
    requires header[at..] == Varint.Digits(pn, n) && NumberLength(header[0]) == n
    requires c == suite.seal(ks.key, Nonce(ks.iv, pn), payload, header)
    ensures |c| == |payload| + TAG
    ensures Unsealed(suite, ks, header + c + more, at, n + |c|) == Opening(suite, ks, header, pn, n, payload)
  {
    hide Nonce, NumberOf, Varint.Digits;
    var bare := header + c + more;
    assert bare[at..at + n] == header[at..];
    assert bare[..at + n] == header;
    assert bare[at + n..at + n + |c|] == c;
  }

  /** A number that fits its field is read back, and the payload opens. */
  lemma OpensWhenFits(suite: Suite, ks: KeySet, header: Bytes, pn: uint32, n: nat, payload: Bytes)
    requires suite.Sound() && |ks.iv| >= 4 && 1 <= n <= 4 && pn < Varint.Pow256(n)
    ensures Opening(suite, ks, header, pn, n, payload) == Some(payload)
  {
    NumberRead(pn, n);
  }

  /** A longer one is cut, the nonce is another, and nothing opens. */
  lemma LockedWhenCut(suite: Suite, ks: KeySet, header: Bytes, pn: uint32, n: nat, payload: Bytes)
    requires suite.Separates() && |ks.iv| == NONCE && 1 <= n <= 4 && pn >= Varint.Pow256(n)
    ensures Opening(suite, ks, header, pn, n, payload) == None
  {
    ShortNumber(Varint.Digits(pn, n));
    if Nonce(ks.iv, NumberOf(Varint.Digits(pn, n))) == Nonce(ks.iv, pn) {
      NonceInjective(ks.iv, NumberOf(Varint.Digits(pn, n)), pn);
    }
  }

  /** What a reader reports for a body that opens, or does not. */
  function Report(f: Front, got: Option<Bytes>): Outcome
    requires f.Long?
  {
    match got
    case None => Read(Response(Foreign, f.version, f.dcid, f.scid, [], []))
    case Some(plain) => Read(Response(Answer, f.version, f.dcid, f.scid, ParseFrames(plain), []))
  }

  /** A protected packet, as masked by m: whatever was appended is as if masked along. */
  lemma ProtectIs(suite: Suite, ks: KeySet, front: Bytes, pn: uint32, n: nat, payload: Bytes, more: Bytes)
      returns (header: Bytes, c: Bytes, m: Bytes)
    requires suite.Sound() && |ks.iv| >= 4 && front != [] && 1 <= n <= 4 && n + |payload| >= 4
    ensures header == front + Varint.Digits(pn, n)
    ensures c == suite.seal(ks.key, Nonce(ks.iv, pn), payload, header) && |c| == |payload| + TAG && |m| == SAMPLE
    ensures m == suite.mask(ks.hp, (header + c + more)[|front| + 4..|front| + 4 + SAMPLE])
    ensures Protect(suite, ks, front, pn, n, payload) + more == Masked(header + c + more, m, |front|, n)
  {
    header := front + Varint.Digits(pn, n);
    c := suite.seal(ks.key, Nonce(ks.iv, pn), payload, header);
    var plain := header + c;
    m := suite.mask(ks.hp, plain[|front| + 4..|front| + 4 + SAMPLE]);
    MaskedAppend(plain, m, |front|, n, more);
    assert plain[|front| + 4..|front| + 4 + SAMPLE] == (plain + more)[|front| + 4..|front| + 4 + SAMPLE];
  }

  /** Protection keeps the header but for the low half of its first byte. */
  lemma ProtectedFront(suite: Suite, ks: KeySet, front: Bytes, pn: uint32, n: nat, payload: Bytes, more: Bytes)
    requires suite.Sound() && |ks.iv| >= 4 && front != [] && 1 <= n <= 4 && n + |payload| >= 4
    ensures var x := Protect(suite, ks, front, pn, n, payload) + more;
            && |x| == |front| + n + |payload| + TAG + |more|
            && x[0] / 0x10 == front[0] / 0x10 && x[1..|front|] == front[1..]
  {
    var header, c, m := ProtectIs(suite, ks, front, pn, n, payload, more);
    XorLowNibble(front[0], m[0] % 0x10);
    FrontKept(Masked(header + c + more, m, |front|, n), header + c + more, m, front, n);
  }

  lemma ProtectedRead(suite: Suite, ks: KeySet, front: Bytes, pn: uint32, n: nat, payload: Bytes, more: Bytes, f: Front)
    requires suite.Sound() && |ks.iv| >= 4 && front != [] && 1 <= n <= 4 && n + |payload| >= 4
    requires NumberLength(front[0]) == n && f.Long?
    ensures Protected(suite, ks, Protect(suite, ks, front, pn, n, payload) + more, f, |front|, n + |payload| + TAG) ==
         Report(f, Opening(suite, ks, front + Varint.Digits(pn, n), pn, n, payload))
  {
    hide Opening, Protect, Unsealed, Nonce, Masked, ParseFrames;
    var header, c, m := ProtectIs(suite, ks, front, pn, n, payload, more);
    assert header[|front|..] == Varint.Digits(pn, n);
    assert header[0] == front[0];
    BareInverts(suite, ks, header + c + more, |front|, m);
    UnsealedIs(suite, ks, header, |front|, n, pn, payload, c, more);
  }

  lemma FrontKept(x: Bytes, w: Bytes, m: Bytes, front: Bytes, n: nat)
    requires |m| == SAMPLE && n <= 4 && front != [] && |front| + n <= |w|
    requires x == Masked(w, m, |front|, n) && w[..|front|] == front
    ensures x[1..|front|] == front[1..] && x[0] == XorByte(front[0], m[0] % 0x10)
  {
    assert w[0] == w[..|front|][0];
    forall i | 1 <= i < |front|
      ensures x[i] == front[i]
    {
      assert w[i] == w[..|front|][i];
    }
  }

  // ------------------------------------------------------------------ the round trip

  /** A datagram that starts with these pieces reads as them. */
  lemma FrontOfPieces(x: Bytes, first: byte, v: Bytes, d: Bytes, s: Bytes, e: Bytes, t: Bytes, l: Bytes, rest: Bytes)
    requires |v| == 4 && |d| <= 255 && |s| <= 255 && first >= 0x80
    requires x == [first] + (Ids(v, d, s) + e + t + l) + rest
    ensures FrontOf(x) == Long(Get32(v), d, s, 7 + |d| + |s|)
  {
    Regroup([first], Ids(v, d, s), e, t, l, rest);
    FrontRead(x, first, v, d, s, e + (t + (l + rest)));
  }

  lemma FieldsOfPieces(x: Bytes, first: byte, ids: Bytes, e: Bytes, t: Bytes, l: Bytes, length: nat, rest: Bytes)
    requires Reads(e, |t|) && |l| == 2 && Reads(l, length) && length <= |rest|
    requires x == [first] + (ids + e + t + l) + rest
    ensures Fields(x, 1 + |ids|) == Some((1 + |ids + e + t + l|, length))
  {
    Regroup([first], ids, e, t, l, rest);
    FieldsRead(x, [first] + ids, e, t, l, length, rest);
  }

  lemma Regroup(f: Bytes, ids: Bytes, e: Bytes, t: Bytes, l: Bytes, rest: Bytes)
    ensures f + (ids + e + t + l) + rest == (f + ids) + (e + (t + (l + rest)))
  {
  }

  /** What a datagram is made of. */
  lemma Parts(suite: Suite, p: Initial, ks: KeySet) returns (payload: Bytes, middle: Bytes, e: Bytes, l: Bytes)
    requires suite.Sound() && |ks.iv| >= 4 && |p.token| < Varint.LIMIT && Datagram(suite, p, ks).Ok?
    ensures |p.dcid| <= 255 && |p.scid| <= 255 && 1 <= p.pnLen <= 4 && p.pnLen + |payload| >= 4 && Fill(p) >= 0
    ensures payload == AllCrypto(p.crypto) + Zeros(Fill(p)) && |payload| < Varint.LIMIT
    ensures Datagram(suite, p, ks).packet ==
         Protect(suite, ks, [LeadByte(p)] + middle, p.packetNumber, p.pnLen, payload)
    ensures middle == Ids(Put32(p.version), p.dcid, p.scid) + e + p.token + l
    ensures Reads(e, |p.token|) && |l| == 2 && Reads(l, p.pnLen + |payload| + TAG)
  {
    payload := AllCrypto(p.crypto) + Zeros(Fill(p));
    middle := Middle(p, p.pnLen + |payload| + TAG);
    e, l := Integers(p, p.pnLen + |payload| + TAG);
  }

  lemma PayloadFrames(p: Initial, payload: Bytes)
    requires Fill(p) >= 0 && payload == AllCrypto(p.crypto) + Zeros(Fill(p)) && |payload| < Varint.LIMIT
    ensures ParseFrames(payload) == FramesOf(p.crypto, Fill(p))
  {
    DataBounded(p.crypto);
    PayloadRead(p.crypto, Fill(p));
  }

  /** Header and body of a received datagram together. */
  lemma WholeRead(suite: Suite, p: Initial, ks: KeySet, x: Bytes, f: Front, at: nat, length: nat, o: Outcome)
    requires suite.Sound() && ks == suite.derive(p.dcid, p.version).1 && p.version != 0
    requires 1 <= at && at + length <= |x| && x[0] / 0x10 % 4 == InitialType(p.version)
    requires FrontOf(x) == f && f.Long? && f.version == p.version && Fields(x, f.size) == Some((at, length))
    requires Protected(suite, ks, x, f, at, length) == o
    ensures ParseOf(suite, x, p.dcid, p.version) == o
  {
  }

  lemma HeaderOf(x: Bytes, v: Bytes, p: Initial, e: Bytes, l: Bytes, length: nat, rest: Bytes)
    requires |v| == 4 && Get32(v) == p.version && |p.dcid| <= 255 && |p.scid| <= 255
    requires Reads(e, |p.token|) && |l| == 2 && Reads(l, length) && length <= |rest|
    requires x != [] && x[0] >= 0x80 && x == [x[0]] + (Ids(v, p.dcid, p.scid) + e + p.token + l) + rest
    ensures FrontOf(x) == Long(p.version, p.dcid, p.scid, 7 + |p.dcid| + |p.scid|)
    ensures Fields(x, 7 + |p.dcid| + |p.scid|) == Some((1 + |Ids(v, p.dcid, p.scid) + e + p.token + l|, length))
  {
    hide *;
    FrontOfPieces(x, x[0], v, p.dcid, p.scid, e, p.token, l, rest);
    FieldsOfPieces(x, x[0], Ids(v, p.dcid, p.scid), e, p.token, l, length, rest);
  }

  lemma StartsWith(x: Bytes, middle: Bytes) returns (rest: Bytes)
    requires 1 + |middle| <= |x| && x[1..1 + |middle|] == middle
    ensures x == [x[0]] + middle + rest && |rest| == |x| - 1 - |middle|
  {
    rest := x[1 + |middle|..];
  }

  lemma SameType(a: byte, b: byte)
    requires a / 0x10 == b / 0x10 && b >= 0x80
    ensures a >= 0x80 && a / 0x10 % 4 == b / 0x10 % 4
  {
  }

  lemma BodyRead(suite: Suite, p: Initial, ks: KeySet, front: Bytes, payload: Bytes, more: Bytes, x: Bytes, size: nat)
    requires suite.Sound() && ks == suite.derive(p.dcid, p.version).1 && |ks.iv| >= 4 && p.version != 0 && front != []
    requires 1 <= p.pnLen <= 4 && p.pnLen + |payload| >= 4 && NumberLength(front[0]) == p.pnLen
    requires x == Protect(suite, ks, front, p.packetNumber, p.pnLen, payload) + more
    requires x != [] && x[0] / 0x10 % 4 == InitialType(p.version)
    requires FrontOf(x) == Long(p.version, p.dcid, p.scid, size)
    requires Fields(x, size) == Some((|front|, p.pnLen + |payload| + TAG))
    ensures ParseOf(suite, x, p.dcid, p.version) ==
         Report(Long(p.version, p.dcid, p.scid, size), OpeningOf(suite, p, ks, front, payload))
  {
    hide *;
    var f := Long(p.version, p.dcid, p.scid, size);
    ProtectedRead(suite, ks, front, p.packetNumber, p.pnLen, payload, more, f);
    OpeningIs(suite, p, ks, front, payload);
    WholeRead(
      suite, p, ks, x, f, |front|, p.pnLen + |payload| + TAG, Report(f, OpeningOf(suite, p, ks, front, payload)));
  }

  function OpeningOf(suite: Suite, p: Initial, ks: KeySet, front: Bytes, payload: Bytes): Option<Bytes>
    requires |ks.iv| >= 4 && 1 <= p.pnLen <= 4
  {
    Opening(suite, ks, front + Varint.Digits(p.packetNumber, p.pnLen), p.packetNumber, p.pnLen, payload)
  }

  lemma OpeningIs(suite: Suite, p: Initial, ks: KeySet, front: Bytes, payload: Bytes)
    requires |ks.iv| >= 4 && 1 <= p.pnLen <= 4
    ensures OpeningOf(suite, p, ks, front, payload) ==
         Opening(suite, ks, front + Varint.Digits(p.packetNumber, p.pnLen), p.packetNumber, p.pnLen, payload)
  {
  }

  lemma HeaderKept(x: Bytes, lead: byte, middle: Bytes, v: Bytes, p: Initial, e: Bytes, l: Bytes, length: nat)
    requires |v| == 4 && Get32(v) == p.version && |p.dcid| <= 255 && |p.scid| <= 255
    requires Reads(e, |p.token|) && |l| == 2 && Reads(l, length)
    requires middle == Ids(v, p.dcid, p.scid) + e + p.token + l && |x| >= 1 + |middle| + length
    requires lead >= 0x80 && x[0] / 0x10 == lead / 0x10 && x[1..1 + |middle|] == middle
    ensures x[0] / 0x10 % 4 == lead / 0x10 % 4
    ensures FrontOf(x) == Long(p.version, p.dcid, p.scid, 7 + |p.dcid| + |p.scid|)
    ensures Fields(x, 7 + |p.dcid| + |p.scid|) == Some((1 + |middle|, length))
  {
    var rest := StartsWith(x, middle);
    SameType(x[0], lead);
    HeaderOf(x, v, p, e, l, length, rest);
  }

  lemma DatagramRead(
    suite: Suite, p: Initial, ks: KeySet, lead: byte, middle: Bytes, v: Bytes, payload: Bytes, e: Bytes, l: Bytes,
    more: Bytes)
    requires suite.Sound() && ks == suite.derive(p.dcid, p.version).1 && |ks.iv| >= 4 && p.version != 0
    requires |v| == 4 && Get32(v) == p.version && |p.dcid| <= 255 && |p.scid| <= 255
    requires 1 <= p.pnLen <= 4 && p.pnLen + |payload| >= 4
    requires lead >= 0x80 && lead / 0x10 % 4 == InitialType(p.version) && NumberLength(lead) == p.pnLen
    requires Reads(e, |p.token|) && |l| == 2 && Reads(l, p.pnLen + |payload| + TAG)
    requires middle == Ids(v, p.dcid, p.scid) + e + p.token + l
    ensures ParseOf(
              suite, Protect(suite, ks, [lead] + middle, p.packetNumber, p.pnLen, payload) + more, p.dcid, p.version) ==
         Report(Long(p.version, p.dcid, p.scid, 7 + |p.dcid| + |p.scid|),
                   OpeningOf(suite, p, ks, [lead] + middle, payload))
  {
    hide *;
    var front := [lead] + middle;
    var x := Protect(suite, ks, front, p.packetNumber, p.pnLen, payload) + more;
    ProtectedFront(suite, ks, front, p.packetNumber, p.pnLen, payload, more);
    assert front[1..] == middle;
    HeaderKept(x, lead, middle, v, p, e, l, p.pnLen + |payload| + TAG);
    BodyRead(suite, p, ks, front, payload, more, x, 7 + |p.dcid| + |p.scid|);
  }

  /** What a reader with the server's keys makes of a datagram protected under them. */
  lemma RoundTripReport(suite: Suite, p: Initial, more: Bytes) returns (front: Bytes)
    requires suite.Sound() && p.version != 0 && |p.token| < Varint.LIMIT
    requires Datagram(suite, p, suite.derive(p.dcid, p.version).1).Ok?
    ensures 1 <= p.pnLen <= 4
    ensures ParseOf(suite, Datagram(suite, p, suite.derive(p.dcid, p.version).1).packet + more, p.dcid, p.version) ==
         Report(Long(p.version, p.dcid, p.scid, 7 + |p.dcid| + |p.scid|),
                   OpeningOf(suite, p, suite.derive(p.dcid, p.version).1, front, AllCrypto(p.crypto) + Zeros(Fill(p))))
  {
    hide ParseOf, Report, OpeningOf, Protect;
    var ks := suite.derive(p.dcid, p.version).1;
    var payload, middle, e, l := Parts(suite, p, ks);
    front := [LeadByte(p)] + middle;
    DatagramRead(suite, p, ks, LeadByte(p), middle, Put32(p.version), payload, e, l, more);
  }

  lemma DatagramFrames(suite: Suite, p: Initial, ks: KeySet) returns (payload: Bytes)
    requires suite.Sound() && |ks.iv| >= 4 && |p.token| < Varint.LIMIT && Datagram(suite, p, ks).Ok?
    ensures Fill(p) >= 0 && payload == AllCrypto(p.crypto) + Zeros(Fill(p))
    ensures ParseFrames(payload) == FramesOf(p.crypto, Fill(p))
  {
    hide ParseFrames, FramesOf;
    var middle, e, l;
    payload, middle, e, l := Parts(suite, p, ks);
    PayloadFrames(p, payload);
  }

  /**
    Every Initial of a non-zero version whose packet number fits its length, whatever that length and the fixed
    bit, read under the keys it was protected with: the same identifiers, the same CRYPTO frames in order and one
    PADDING frame of the exact fill. Bytes after the declared length change nothing.
    */
  lemma RoundTrip(suite: Suite, p: Initial, more: Bytes)
    requires suite.Sound() && p.version != 0 && |p.token| < Varint.LIMIT
    requires 1 <= p.pnLen <= 4 && p.packetNumber < Varint.Pow256(p.pnLen)
    requires Datagram(suite, p, suite.derive(p.dcid, p.version).1).Ok?
    ensures ParseOf(suite, Datagram(suite, p, suite.derive(p.dcid, p.version).1).packet + more, p.dcid, p.version) ==
         Read(Response(Answer, p.version, p.dcid, p.scid, FramesOf(p.crypto, Fill(p)), []))
  {
    hide ParseOf, Datagram, FramesOf, ParseFrames, Opening;
    var front := RoundTripReport(suite, p, more);
    var payload := DatagramFrames(suite, p, suite.derive(p.dcid, p.version).1);
    OpensWhenFits(suite, suite.derive(p.dcid, p.version).1, front + Varint.Digits(p.packetNumber, p.pnLen),
                  p.packetNumber, p.pnLen, payload);
  }

  /** A longer packet number is written cut. Given authentication, the datagram is read back exactly when it fits. */
  lemma RoundTripExactlyWhen(suite: Suite, p: Initial, more: Bytes)
    requires suite.Sound() && suite.Separates() && p.version != 0 && |p.token| < Varint.LIMIT
    requires Datagram(suite, p, suite.derive(p.dcid, p.version).1).Ok?
    ensures var packet := Datagram(suite, p, suite.derive(p.dcid, p.version).1).packet;
            var o := ParseOf(suite, packet + more, p.dcid, p.version);
            if p.packetNumber < Varint.Pow256(p.pnLen)
            then o == Read(Response(Answer, p.version, p.dcid, p.scid, FramesOf(p.crypto, Fill(p)), []))
            else o == Read(Response(Foreign, p.version, p.dcid, p.scid, [], []))
    ensures 1 <= p.pnLen <= 4
  {
    hide ParseOf, Datagram, FramesOf, ParseFrames, Opening;
    var front := RoundTripReport(suite, p, more);
    var payload := DatagramFrames(suite, p, suite.derive(p.dcid, p.version).1);
    var ks, header := suite.derive(p.dcid, p.version).1, front + Varint.Digits(p.packetNumber, p.pnLen);
    if p.packetNumber < Varint.Pow256(p.pnLen) {
      OpensWhenFits(suite, ks, header, p.packetNumber, p.pnLen, payload);
    } else {
      LockedWhenCut(suite, ks, header, p.packetNumber, p.pnLen, payload);
    }
  }

  /** Packet number 256 in one byte. */
  const LongNumber := Initial(1, [], [], [], 256, 1, [CryptoFrame(0, [1, 2, 3])], 0, false)

  /** It is built, and it is lost: the reader takes it for a foreign packet. */
  lemma LongNumberLost(suite: Suite, more: Bytes)
    requires suite.Sound() && suite.Separates()
    ensures var made := Datagram(suite, LongNumber, suite.derive([], 1).1);
            && made.Ok?
            && ParseOf(suite, made.packet + more, [], 1) == Read(Response(Foreign, 1, [], [], [], []))
  {
    hide ParseOf;
    assert AllCrypto(LongNumber.crypto) == CryptoBytes(CryptoFrame(0, [1, 2, 3])) + AllCrypto([]);
    assert Datagram(suite, LongNumber, suite.derive([], 1).1).Ok?;
    assert Varint.Pow256(1) == 0x100;
    RoundTripExactlyWhen(suite, LongNumber, more);
  }

  /** An Initial of version zero is taken for a version negotiation, whatever else it holds. */
  lemma VersionZeroRead(suite: Suite, p: Initial, ks: KeySet, more: Bytes, dcid: Bytes, v: uint32)
    requires suite.Sound() && |ks.iv| >= 4 && p.version == 0 && |p.token| < Varint.LIMIT && Datagram(suite, p, ks).Ok?
    ensures exists vs ::
              ParseOf(suite, Datagram(suite, p, ks).packet + more, dcid, v) ==
              Read(Response(Negotiation, 0, p.dcid, p.scid, [], vs))
  {
    hide Protect, Versions, Reads, Ids, LeadByte;
    var payload, middle, e, l := Parts(suite, p, ks);
    var front := [LeadByte(p)] + middle;
    var x := Datagram(suite, p, ks).packet + more;
    ProtectedFront(suite, ks, front, p.packetNumber, p.pnLen, payload, more);
    assert front[1..] == middle;
    HeaderKept(x, LeadByte(p), middle, Put32(p.version), p, e, l, p.pnLen + |payload| + TAG);
    SameType(x[0], LeadByte(p));
  }

  /** The datagram has exactly the wanted size, and without one it carries no padding. */
  lemma ExactSize(suite: Suite, p: Initial, ks: KeySet)
    requires suite.Sound() && |ks.iv| >= 4 && Datagram(suite, p, ks).Ok?
    ensures p.datagramLen > 0 ==> |Datagram(suite, p, ks).packet| == p.datagramLen
    ensures p.datagramLen <= 0 ==> |Datagram(suite, p, ks).packet| == HeaderLen(p) + |AllCrypto(p.crypto)| + TAG
  {
    var payload := AllCrypto(p.crypto) + Zeros(Fill(p));
    var length := p.pnLen + |payload| + TAG;
    assert |Middle(p, length)| + 1 + p.pnLen == HeaderLen(p);
  }

  // ------------------------------------------------------------------ what is not an answer

  /** What a long header's version and type bits make of a packet of version v. */
  lemma TypeDecides(suite: Suite, pkt: Bytes, dcid: Bytes, v: uint32)
    requires suite.Sound() && FrontOf(pkt).Long? && FrontOf(pkt).version != 0
    ensures var f, bits, o := FrontOf(pkt), pkt[0] / 0x10 % 4, ParseOf(suite, pkt, dcid, v);
            && (f.version != v ==> o == Read(Response(Foreign, f.version, f.dcid, f.scid, [], [])))
            && (f.version == v && bits == (if v == 0x6b33_43cf then 0 else 3) ==>
                  o == Read(Response(Retry, v, f.dcid, f.scid, [], [])))
            && (f.version == v && bits == 2 ==> o == Read(Response(Foreign, v, f.dcid, f.scid, [], [])))
            && (f.version == v && bits == (if v == 0x6b33_43cf then 3 else 1) ==>
                  o == Read(Response(Foreign, v, f.dcid, f.scid, [], [])))
  {
    hide FrontOf, Fields, Protected;
  }

  /** A short header is not ours to read. */
  lemma ShortIsForeign(suite: Suite, pkt: Bytes, dcid: Bytes, v: uint32)
    requires suite.Sound() && |pkt| >= 7 && pkt[0] < 0x80
    ensures ParseOf(suite, pkt, dcid, v) == Read(Response(Foreign, 0, [], [], [], []))
  {
  }

  /** The list of a version negotiation is read to its last whole entry. */
  lemma {:induction false} VersionsRead(vs: seq<uint32>, rest: Bytes)
    requires |rest| < 4
    ensures Versions(AllVersions(vs) + rest) == vs
    decreases |vs|
  {
    if vs == [] {
      assert AllVersions(vs) + rest == rest;
      NoVersions(rest);
    } else {
      var b, tail := AllVersions(vs) + rest, AllVersions(vs[1..]) + rest;
      assert b == Put32(vs[0]) + tail;
      VersionThen(vs[0], tail);
      VersionsRead(vs[1..], rest);
    }
  }

  lemma VersionThen(v: uint32, tail: Bytes)
    ensures Versions(Put32(v) + tail) == [v] + Versions(tail)
  {
    var b := Put32(v) + tail;
    assert b[..4] == Put32(v) && b[4..] == tail;
    assert Get32(b) == Get32(b[..4]);
  }

  function AllVersions(vs: seq<uint32>): Bytes {
    if vs == [] then [] else Put32(vs[0]) + AllVersions(vs[1..])
  }

  lemma DecodeCut(b: Bytes, k: nat)
    requires k <= |b|
    ensures Varint.Decode(b[..k]).1 == 0 || Varint.Decode(b[..k]) == Varint.Decode(b)
  {
    if k > 0 && Varint.SizeOf(b[0]) <= k {
      assert b[..k][1..Varint.SizeOf(b[0])] == b[1..Varint.SizeOf(b[0])];
    }
  }

  lemma FieldsCut(x: Bytes, k: nat, off: nat, at: nat, length: nat)
    requires off <= k < |x| && Fields(x, off) == Some((at, length)) && at + length == |x|
    ensures Fields(x[..k], off) == None
  {
    hide Varint.Decode;
    var (tok, n) := Varint.Decode(x[off..]);
    assert x[..k][off..] == x[off..][..k - off];
    DecodeCut(x[off..], k - off);
    var next := off + n + tok;
    if next <= k {
      assert x[..k][next..] == x[next..][..k - next];
      DecodeCut(x[next..], k - next);
    }
  }

  lemma FrontCut(x: Bytes, k: nat)
    requires k <= |x| && FrontOf(x).Long?
    ensures FrontOf(x[..k]) == Cut || (FrontOf(x[..k]) == FrontOf(x) && FrontOf(x).size <= k)
  {
    hide Get32;
    var y := x[..k];
    if k >= 7 && FrontOf(y).Long? {
      assert y[1..5] == x[1..5];
      var d: int, s: int := x[5], x[6 + x[5]];
      SliceOfCut(x, k, 6, 6 + d);
      SliceOfCut(x, k, 7 + d, 7 + d + s);
    }
  }

  lemma CutIsError(suite: Suite, x: Bytes, k: nat, dcid: Bytes, v: uint32, at: nat, length: nat)
    requires suite.Sound() && k < |x| && FrontOf(x).Long? && FrontOf(x).version == v != 0
    requires x[0] / 0x10 % 4 == InitialType(v)
    requires Fields(x, FrontOf(x).size) == Some((at, length)) && at + length == |x|
    ensures ParseOf(suite, x[..k], dcid, v) == Error
  {
    FrontCut(x, k);
    if FrontOf(x[..k]) == FrontOf(x) {
      FieldsCut(x, k, FrontOf(x).size, at, length);
    }
    hide FrontOf, Fields, Protected;
  }

  /** Of a datagram that was cut anywhere nothing is read: that is an error, whatever the keys. */
  lemma EveryCutIsError(suite: Suite, p: Initial, ks: KeySet, k: nat, dcid: Bytes)
    requires suite.Sound() && |ks.iv| >= 4 && p.version != 0 && |p.token| < Varint.LIMIT && Datagram(suite, p, ks).Ok?
    requires k < |Datagram(suite, p, ks).packet|
    ensures ParseOf(suite, Datagram(suite, p, ks).packet[..k], dcid, p.version) == Error
  {
    hide Datagram, FrontOf, Fields, ParseOf;
    var at, length := DatagramHeader(suite, p, ks);
    CutIsError(suite, Datagram(suite, p, ks).packet, k, dcid, p.version, at, length);
  }

  /** x is read as an Initial of p whose number starts at at and whose length reaches the end. */
  predicate HeaderIs(x: Bytes, p: Initial, at: nat, length: nat) {
    && |x| == at + length && length > 0 && x[0] / 0x10 % 4 == InitialType(p.version)
    && FrontOf(x) == Long(p.version, p.dcid, p.scid, 7 + |p.dcid| + |p.scid|)
    && Fields(x, FrontOf(x).size) == Some((at, length))
  }

  lemma DatagramHeader(suite: Suite, p: Initial, ks: KeySet) returns (at: nat, length: nat)
    requires suite.Sound() && |ks.iv| >= 4 && |p.token| < Varint.LIMIT && Datagram(suite, p, ks).Ok?
    ensures HeaderIs(Datagram(suite, p, ks).packet, p, at, length)
  {
    hide *;
    var payload, middle, e, l := Parts(suite, p, ks);
    var x := Datagram(suite, p, ks).packet;
    LeadByteIs(p);
    at, length := 1 + |middle|, p.pnLen + |payload| + TAG;
    ProtectedHeader(suite, p, ks, LeadByte(p), middle, Put32(p.version), payload, e, l, x);
  }

  lemma LeadByteIs(p: Initial)
    requires 1 <= p.pnLen <= 4
    ensures LeadByte(p) >= 0x80 && LeadByte(p) / 0x10 % 4 == InitialType(p.version)
  {
  }

  lemma ProtectedHeader(
    suite: Suite, p: Initial, ks: KeySet, lead: byte, middle: Bytes, v: Bytes, payload: Bytes, e: Bytes, l: Bytes,
    x: Bytes)
    requires suite.Sound() && |ks.iv| >= 4 && 1 <= p.pnLen <= 4 && p.pnLen + |payload| >= 4
    requires |v| == 4 && Get32(v) == p.version && |p.dcid| <= 255 && |p.scid| <= 255
    requires lead >= 0x80 && lead / 0x10 % 4 == InitialType(p.version)
    requires Reads(e, |p.token|) && |l| == 2 && Reads(l, p.pnLen + |payload| + TAG)
    requires middle == Ids(v, p.dcid, p.scid) + e + p.token + l
    requires x == Protect(suite, ks, [lead] + middle, p.packetNumber, p.pnLen, payload)
    ensures HeaderIs(x, p, 1 + |middle|, p.pnLen + |payload| + TAG)
  {
    hide Protect, FrontOf, Fields, Reads, Ids, InitialType;
    var front := [lead] + middle;
    ProtectedFront(suite, ks, front, p.packetNumber, p.pnLen, payload, []);
    assert x + [] == x;
    assert front[1..] == middle;
    HeaderKept(x, lead, middle, v, p, e, l, p.pnLen + |payload| + TAG);
  }

  // ------------------------------------------------------------------ byte by byte

  /** Where the packet number starts. */
  function NumberAt(p: Initial): nat {
    9 + |p.dcid| + |p.scid| + |Varint.Encode(Uint64(|p.token|))| + |p.token|
  }

  /** Up to the packet number: flags, version, identifiers, token, and the length of what is left. */
  predicate FrontIs(x: Bytes, p: Initial, e: Bytes) {
    var d, s, at := |p.dcid|, |p.scid|, 9 + |p.dcid| + |p.scid| + |e| + |p.token|;
    && |x| > at
    && x[0] / 0x40 == (if p.clearFixedBit then 2 else 3)
    && x[0] / 0x10 % 4 == (if p.version == 0x6b33_43cf then 1 else 0)
    && Holds32(x, 1, p.version)
    && x[5] == d && x[6..6 + d] == p.dcid && x[6 + d] == s && x[7 + d..7 + d + s] == p.scid
    && x[7 + d + s..7 + d + s + |e|] == e && x[at - 2 - |p.token|..at - 2] == p.token
    && Holds16(x, at - 2, 0x4000 + |x| - at)
  }

  /** The finished, masked datagram begins as it should. */
  lemma FrontByIndex(suite: Suite, p: Initial, ks: KeySet)
    requires suite.Sound() && |ks.iv| >= 4 && Datagram(suite, p, ks).Ok?
    ensures FrontIs(Datagram(suite, p, ks).packet, p, Varint.Encode(Uint64(|p.token|)))
  {
    var payload, length := Made(suite, p, ks);
    var x, middle := Datagram(suite, p, ks).packet, Middle(p, length);
    hide Datagram, FrontIs, Protect, Middle, Fill;
    var front := [LeadByte(p)] + middle;
    ProtectedFront(suite, ks, front, p.packetNumber, p.pnLen, payload, []);
    assert Protect(suite, ks, front, p.packetNumber, p.pnLen, payload) + [] == x;
    assert front[1..] == middle;
    LeadBits(p, x[0]);
    Put32Holds(p.version);
    TwoDigits(0x4000 + length);
    MiddleIs(p, length);
    FrontIsMiddle(
      x, p, middle, Put32(p.version), Varint.Encode(Uint64(|p.token|)), Varint.Digits(0x4000 + length, 2), length);
  }

  lemma Made(suite: Suite, p: Initial, ks: KeySet) returns (payload: Bytes, length: nat)
    requires suite.Sound() && |ks.iv| >= 4 && Datagram(suite, p, ks).Ok?
    ensures |p.dcid| <= 255 && |p.scid| <= 255 && 1 <= p.pnLen <= 4 && Fill(p) >= 0 && p.pnLen + |payload| >= 4
    ensures payload == AllCrypto(p.crypto) + Zeros(Fill(p)) && length == p.pnLen + |payload| + TAG <= 16383
    ensures Datagram(suite, p, ks).packet ==
            Protect(suite, ks, [LeadByte(p)] + Middle(p, length), p.packetNumber, p.pnLen, payload)
  {
    payload := AllCrypto(p.crypto) + Zeros(Fill(p));
    length := p.pnLen + |payload| + TAG;
  }

  lemma MiddleIs(p: Initial, length: nat)
    requires |p.dcid| <= 255 && |p.scid| <= 255 && length <= 16383
    ensures Middle(p, length) ==
            Put32(p.version) + [|p.dcid|] + p.dcid + [|p.scid|] + p.scid + Varint.Encode(Uint64(|p.token|)) + p.token
            + Varint.Digits(0x4000 + length, 2)
  {
  }

  lemma FrontIsMiddle(x: Bytes, p: Initial, m: Bytes, v: Bytes, e: Bytes, l: Bytes, length: nat)
    requires |p.dcid| <= 255 && |p.scid| <= 255 && 0 < length
    requires m == v + [|p.dcid|] + p.dcid + [|p.scid|] + p.scid + e + p.token + l
    requires |v| == 4 && Holds32(v, 0, p.version) && |l| == 2 && Holds16(l, 0, 0x4000 + length)
    requires |x| == 1 + |m| + length && x[1..1 + |m|] == m
    requires x[0] / 0x40 == (if p.clearFixedBit then 2 else 3)
    requires x[0] / 0x10 % 4 == (if p.version == 0x6b33_43cf then 1 else 0)
    ensures FrontIs(x, p, e)
  {
    AfterFirst(x, v, p.dcid, p.scid, e, p.token, l);
    hide *;
    FrontIsPieces(x, p, v, e, l);
  }

  lemma FrontIsPieces(x: Bytes, p: Initial, v: Bytes, e: Bytes, l: Bytes)
    requires |v| == 4 && Holds32(v, 0, p.version) && |l| == 2
    requires var d, s, at := |p.dcid|, |p.scid|, 9 + |p.dcid| + |p.scid| + |e| + |p.token|;
             && at < |x| && x[1..5] == v && x[5] == d && x[6..6 + d] == p.dcid && x[6 + d] == s
             && x[7 + d..7 + d + s] == p.scid && x[7 + d + s..7 + d + s + |e|] == e
             && x[at - 2 - |p.token|..at - 2] == p.token && x[at - 2..at] == l && Holds16(l, 0, 0x4000 + |x| - at)
    requires x[0] / 0x40 == (if p.clearFixedBit then 2 else 3)
    requires x[0] / 0x10 % 4 == (if p.version == 0x6b33_43cf then 1 else 0)
    ensures FrontIs(x, p, e)
  {
    var at := 9 + |p.dcid| + |p.scid| + |e| + |p.token|;
    assert x[1] == x[1..5][0] && x[2] == x[1..5][1] && x[3] == x[1..5][2] && x[4] == x[1..5][3];
    assert x[at - 2] == x[at - 2..at][0] && x[at - 1] == x[at - 2..at][1];
  }

  lemma AfterFirst(x: Bytes, v: Bytes, d: Bytes, s: Bytes, e: Bytes, t: Bytes, l: Bytes)
    requires |v| == 4 && |d| <= 255 && |s| <= 255 && |l| == 2
    requires var m := v + [|d|] + d + [|s|] + s + e + t + l; 1 + |m| <= |x| && x[1..1 + |m|] == m
    ensures var at := 9 + |d| + |s| + |e| + |t|;
            && x[1..5] == v && x[5] == |d| && x[6..6 + |d|] == d && x[6 + |d|] == |s|
            && x[7 + |d|..7 + |d| + |s|] == s && x[7 + |d| + |s|..7 + |d| + |s| + |e|] == e
            && x[at - 2 - |t|..at - 2] == t && x[at - 2..at] == l
  {
    MiddleSlices(v, d, s, e, t, l);
    Behind(x, v + [|d|] + d + [|s|] + s + e + t + l);
  }

  lemma LeadBits(p: Initial, first: byte)
    requires 1 <= p.pnLen <= 4 && first / 0x10 == LeadByte(p) / 0x10
    ensures first / 0x40 == (if p.clearFixedBit then 2 else 3)
    ensures first / 0x10 % 4 == (if p.version == 0x6b33_43cf then 1 else 0)
  {
  }

  lemma TwoDigits(v: nat)
    requires v < 0x1_0000
    ensures Holds16(Varint.Digits(v, 2), 0, v)
  {
    assert Varint.Digits(v, 2) == Varint.Digits(v / 0x100, 1) + [v % 0x100];
    assert Varint.Digits(v / 0x100, 1) == [v / 0x100];
  }

  lemma MiddleSlices(v: Bytes, d: Bytes, s: Bytes, e: Bytes, t: Bytes, l: Bytes)
    requires |v| == 4 && |d| <= 255 && |s| <= 255 && |l| == 2
    ensures var m := v + [|d|] + d + [|s|] + s + e + t + l;
            && |m| == 8 + |d| + |s| + |e| + |t| && m[..4] == v && m[4] == |d| && m[5..5 + |d|] == d
            && m[5 + |d|] == |s| && m[6 + |d|..6 + |d| + |s|] == s
            && m[6 + |d| + |s|..6 + |d| + |s| + |e|] == e
            && m[6 + |d| + |s| + |e|..6 + |d| + |s| + |e| + |t|] == t && m[|m| - 2..] == l
  {
  }

  /** What stands one place further on. */
  lemma Behind(x: Bytes, m: Bytes)
    requires 1 + |m| <= |x| && x[1..1 + |m|] == m
    ensures forall i :: 0 <= i < |m| ==> x[1 + i] == m[i]
    ensures forall i, j :: 0 <= i <= j <= |m| ==> x[1 + i..1 + j] == m[i..j]
  {
    forall i | 0 <= i < |m|
      ensures x[1 + i] == m[i]
    {
      assert x[1..1 + |m|][i] == x[1 + i];
    }
  }

  /** The header with the mask taken off that sample m gives, up to the end of an n-byte number at at. */
  function BareHeader(x: Bytes, m: Bytes, at: nat, n: nat): Bytes
    requires |m| == SAMPLE && 1 <= at && n <= 4 && at + n <= |x|
  {
    [XorByte(x[0], m[0] % 0x10)] + x[1..at] + XorSeq(x[at..at + n], m[1..1 + n])
  }

  /**
    The rest of it: with the mask taken off that the sixteen bytes from the fourth after the number on give, the
    header ends with the low bytes of the packet number, high one first, and everything after it is the payload
    sealed under that number and that header.
    */
  lemma BodyByIndex(suite: Suite, p: Initial, ks: KeySet)
    requires suite.Sound() && |ks.iv| >= 4 && Datagram(suite, p, ks).Ok?
    ensures Fill(p) >= 0 && 1 <= p.pnLen <= 4
    ensures BodyIs(suite, ks, Datagram(suite, p, ks).packet, NumberAt(p), p.pnLen, p.packetNumber,
                   AllCrypto(p.crypto) + Zeros(Fill(p)))
  {
    var payload, length := Made(suite, p, ks);
    var x, front := Datagram(suite, p, ks).packet, [LeadByte(p)] + Middle(p, length);
    FrontSize(p, length);
    hide Datagram, Protect, Nonce, Middle, Masked, Fill, NumberAt, BodyIs;
    assert Protect(suite, ks, front, p.packetNumber, p.pnLen, payload) + [] == x;
    assert front[0] == LeadByte(p);
    ProtectedBody(suite, ks, front, p.packetNumber, p.pnLen, payload);
  }

  predicate BodyIs(suite: Suite, ks: KeySet, x: Bytes, at: nat, n: nat, pn: uint32, payload: Bytes)
    requires suite.Sound() && |ks.iv| >= 4 && 1 <= at && 1 <= n <= 4
  {
    && |x| >= at + 20
    && var h := BareHeader(x, suite.mask(ks.hp, x[at + 4..at + 20]), at, n);
    && h[0] % 4 + 1 == n && h[at..] == Varint.Digits(pn, n)
    && x[at + n..] == suite.seal(ks.key, Nonce(ks.iv, pn), payload, h)
  }

  lemma ProtectedBody(suite: Suite, ks: KeySet, front: Bytes, pn: uint32, n: nat, payload: Bytes)
    requires suite.Sound() && |ks.iv| >= 4 && front != [] && 1 <= n <= 4 && n + |payload| >= 4
    requires front[0] % 4 + 1 == n
    ensures BodyIs(suite, ks, Protect(suite, ks, front, pn, n, payload), |front|, n, pn, payload)
  {
    var x := Protect(suite, ks, front, pn, n, payload);
    hide Protect, Nonce, Masked, BareHeader, Varint.Digits;
    var header, c, m := ProtectIs(suite, ks, front, pn, n, payload, []);
    assert x + [] == x && header + c + [] == header + c;
    MaskedParts(x, header, c, m, |front|, n);
    assert header[0] == front[0] && header[|front|..] == Varint.Digits(pn, n);
  }

  lemma FrontSize(p: Initial, length: nat)
    requires |p.dcid| <= 255 && |p.scid| <= 255
    ensures 1 + |Middle(p, length)| == NumberAt(p)
  {
  }

  lemma MaskedParts(x: Bytes, header: Bytes, c: Bytes, m: Bytes, at: nat, n: nat)
    requires |m| == SAMPLE && 1 <= at && 1 <= n <= 4 && |header| == at + n && at + 4 + SAMPLE <= |header + c|
    requires x == Masked(header + c, m, at, n)
    ensures x[at + 4..at + 20] == (header + c)[at + 4..at + 4 + SAMPLE] && x[at + n..] == c
    ensures BareHeader(x, m, at, n) == header
  {
    var w := header + c;
    MaskByIndex(w, m, at, n);
    XorByteTwice(w[0], m[0] % 0x10);
    XorSeqTwice(w[at..at + n], m[1..1 + n]);
    hide Masked, XorByte, XorSeq;
    assert w[1..at] == header[1..at] && w[at..at + n] == header[at..] && w[at + n..] == c;
    assert x[at + 4..at + 20] == x[at + n..][4 - n..20 - n];
    assert w[at + 4..at + 20] == w[at + n..][4 - n..20 - n];
    assert header == [header[0]] + header[1..at] + header[at..];
  }

  // ------------------------------------------------------------------ totality

  /** The reader reaches the body of an Initial of ours. */
  predicate Reaches(pkt: Bytes, v: uint32, at: int, length: int) {
    && at >= 1 && length >= 0
    && FrontOf(pkt).Long? && FrontOf(pkt).version == v != 0
    && pkt[0] / 0x10 % 4 == InitialType(v)
    && Fields(pkt, FrontOf(pkt).size) == Some((at, length))
    && HasSample(pkt, at)
  }

  /** The reader fails to return exactly on a declared length below the hidden number length. */
  lemma CrashesExactlyWhen(suite: Suite, pkt: Bytes, dcid: Bytes, v: uint32)
    requires suite.Sound()
    ensures ParseOf(suite, pkt, dcid, v) == Crash <==>
            exists at, length :: Reaches(pkt, v, at, length)
              && length < NumberLength(Bare(suite, suite.derive(dcid, v).1, pkt, at)[0])
  {
    var f := FrontOf(pkt);
    if f.Long? && Fields(pkt, f.size).Some? {
      var (at, length) := Fields(pkt, f.size).value;
      if ParseOf(suite, pkt, dcid, v) == Crash {
        assert Reaches(pkt, v, at, length);
      }
    }
  }

  /** So a declared length of four or more is always safe. */
  lemma SafeFromFour(suite: Suite, pkt: Bytes, dcid: Bytes, v: uint32)
    requires suite.Sound()
    requires forall at, length :: Reaches(pkt, v, at, length) ==> length >= 4
    ensures ParseOf(suite, pkt, dcid, v) != Crash
  {
    CrashesExactlyWhen(suite, pkt, dcid, v);
  }

  /** And every Initial of ours that declares no bytes crashes the reader, under every key. */
  lemma EmptyLengthCrashes(suite: Suite, pkt: Bytes, dcid: Bytes, v: uint32, at: int)
    requires suite.Sound() && Reaches(pkt, v, at, 0)
    ensures ParseOf(suite, pkt, dcid, v) == Crash
  {
    CrashesExactlyWhen(suite, pkt, dcid, v);
  }

  /** Twenty-nine bytes are enough. */
  lemma CrashingPacket(suite: Suite, dcid: Bytes)
    requires suite.Sound()
    ensures ParseOf(suite, [0xc0] + Put32(1) + [0, 0, 0, 0] + Zeros(20), dcid, 1) == Crash
  {
    hide ParseOf, FrontOf, Fields, Reaches, Put32;
    var pkt := [0xc0] + Put32(1) + [0, 0, 0, 0] + Zeros(20);
    var tail := [0] + Zeros(20);
    assert pkt == ([0xc0] + Ids(Put32(1), [], [])) + ([0] + tail);
    FrontRead(pkt, 0xc0, Put32(1), [], [], [0] + tail);
    ZeroRead(tail);
    ZeroRead(Zeros(20));
    ZeroFields(pkt, [0xc0] + Ids(Put32(1), [], []), Zeros(20));
    OnTheWay(pkt);
    EmptyLengthCrashes(suite, pkt, dcid, 1, 9);
  }

  lemma OnTheWay(pkt: Bytes)
    requires |pkt| >= 29 && pkt[0] == 0xc0
    requires FrontOf(pkt) == Long(1, [], [], 7) && Fields(pkt, 7) == Some((9, 0))
    ensures Reaches(pkt, 1, 9, 0)
  {
    hide FrontOf, Fields;
    assert pkt[0] / 0x10 % 4 == 0;
  }

  lemma ZeroFields(x: Bytes, head: Bytes, rest: Bytes)
    requires x == head + ([0] + ([0] + rest))
    requires Varint.Decode([0] + ([0] + rest)) == (0, 1) && Varint.Decode([0] + rest) == (0, 1)
    ensures Fields(x, |head|) == Some((|head| + 2, 0))
  {
    assert x[|head|..] == [0] + ([0] + rest);
    assert x[|head| + 1..] == [0] + rest;
  }

  lemma ZeroRead(rest: Bytes)
    ensures Varint.Decode([0] + rest) == (0, 1)
  {
    assert ([0] + rest)[1..1] == [];
  }
}
