/** The frames of a decrypted QUIC Initial (section 12.4 of RFC 9000): reading and writing them. */
module QuicFrames {
  import opened Bits
  import Varint

  datatype Frame =
    | Padding(count: nat)
    | Ping
    | Ack
    | Crypto(offset: nat, data: seq<byte>)
    | Close(code: nat, reason: seq<byte>)

  datatype Step = Stop | Next(frame: Frame, size: nat)

  // ------------------------------------------------------------------ one frame

  /** The zero bytes b starts with. */
  function ZeroRun(b: seq<byte>): (n: nat)
    ensures n <= |b|
    ensures forall i :: 0 <= i < n ==> b[i] == 0
    ensures n < |b| ==> b[n] != 0
  {
    if b == [] || b[0] != 0 then 0 else 1 + ZeroRun(b[1..])
  }

  /** Where k integers starting at index i end; zero when one is cut off. */
  function AfterVarints(b: seq<byte>, i: nat, k: nat): (end: nat)
    requires i <= |b|
    ensures end <= |b| && (end != 0 ==> end >= i)
    decreases k
  {
    if k == 0 then i
    else
      var (_, n) := Varint.Decode(b[i..]);
      if n == 0 then 0 else AfterVarints(b, i + n, k - 1)
  }

  /** Only the four leading fields of an ACK are read. */
  function AckAt(b: seq<byte>): (s: Step)
    requires b != []
    ensures s.Next? ==> 0 < s.size <= |b|
  {
    var end := AfterVarints(b, 1, 4);
    if end == 0 then Stop else Next(Ack, end)
  }

  /** A length and that many bytes from index i on. */
  function BlobAt(b: seq<byte>, i: nat): (r: (seq<byte>, nat))
    requires i <= |b|
    ensures r.1 <= |b| && (r.1 != 0 ==> r.1 > i)
  {
    var (ln, n) := Varint.Decode(b[i..]);
    if n == 0 || i + n + ln > |b| then ([], 0) else (b[i + n..i + n + ln], i + n + ln)
  }

  function CryptoAt(b: seq<byte>): (s: Step)
    requires b != []
    ensures s.Next? ==> 0 < s.size <= |b|
  {
    var (off, n) := Varint.Decode(b[1..]);
    if n == 0 then Stop
    else
      var (data, end) := BlobAt(b, 1 + n);
      if end == 0 then Stop else Next(Crypto(off, data), end)
  }

  /** Only type 0x1c carries the type of the offending frame. */
  function CloseAt(b: seq<byte>): (s: Step)
    requires b != []
    ensures s.Next? ==> 0 < s.size <= |b|
  {
    var (code, n) := Varint.Decode(b[1..]);
    if n == 0 then Stop
    else
      var i := if b[0] == 0x1c then AfterVarints(b, 1 + n, 1) else 1 + n;
      if i == 0 then Stop
      else
        var (reason, end) := BlobAt(b, i);
        if end == 0 then Stop else Next(Close(code, reason), end)
  }

  function FrameAt(b: seq<byte>): (s: Step)
    requires b != []
    ensures s.Next? ==> 0 < s.size <= |b|
  {
    if b[0] == 0 then Next(Padding(ZeroRun(b)), ZeroRun(b))
    else if b[0] == 1 then Next(Ping, 1)
    else if b[0] == 2 || b[0] == 3 then AckAt(b)
    else if b[0] == 6 then CryptoAt(b)
    else if b[0] == 0x1c || b[0] == 0x1d then CloseAt(b)
    else Stop
  }

  /** Frames up to the first that is unknown or cut off. */
  function ParseFrames(b: seq<byte>): seq<Frame>
    decreases |b|
  {
    if b == [] then []
    else match FrameAt(b)
      case Stop => []
      case Next(f, n) => [f] + ParseFrames(b[n..])
  }

  // ------------------------------------------------------------------ the parser

  method ReadAck(b: seq<byte>) returns (s: Step)
    requires b != []
    ensures s == AckAt(b)
  {
    hide Varint.Decode;
    var i := 1;
    for k := 0 to 4
      invariant 1 <= i <= |b|
      invariant AfterVarints(b, 1, 4) == AfterVarints(b, i, 4 - k)
    {
      var _, n := Varint.Read(b[i..]);
      if n == 0 {
        return Stop;
      }
      i := i + n;
    }
    s := Next(Ack, i);
  }

  method ReadCrypto(b: seq<byte>) returns (s: Step)
    requires b != []
    ensures s == CryptoAt(b)
  {
    var off, n1 := Varint.Read(b[1..]);
    if n1 == 0 {
      return Stop;
    }
    var ln, n2 := Varint.Read(b[1 + n1..]);
    if n2 == 0 {
      return Stop;
    }
    var start := 1 + n1 + n2;
    if start + ln > |b| {
      return Stop;
    }
    s := Next(Crypto(off, b[start..start + ln]), start + ln);
  }

  method ReadClose(b: seq<byte>) returns (s: Step)
    requires b != []
    ensures s == CloseAt(b)
  {
    hide Varint.Decode;
    var i := 1;
    var code, n := Varint.Read(b[i..]);
    if n == 0 {
      return Stop;
    }
    i := i + n;
    if b[0] == 0x1c {
      var _, m := Varint.Read(b[i..]);
      assert AfterVarints(b, i, 1) == if m == 0 then 0 else AfterVarints(b, i + m, 0);
      if m == 0 {
        return Stop;
      }
      i := i + m;
    }
    var rl, r := Varint.Read(b[i..]);
    if r == 0 || i + r + rl > |b| {
      return Stop;
    }
    i := i + r;
    s := Next(Close(code, b[i..i + rl]), i + rl);
  }

  method ReadPadding(b: seq<byte>) returns (n: nat)
    ensures n == ZeroRun(b)
  {
    n := 0;
    while n < |b| && b[n] == 0
      invariant n <= |b| && forall k :: 0 <= k < n ==> b[k] == 0
    {
      n := n + 1;
    }
    ZeroRunIs(b, n);
  }

  method ReadFrame(b: seq<byte>) returns (s: Step)
    requires b != []
    ensures s == FrameAt(b)
  {
    if b[0] == 0 {
      var n := ReadPadding(b);
      s := Next(Padding(n), n);
    } else if b[0] == 1 {
      s := Next(Ping, 1);
    } else if b[0] == 2 || b[0] == 3 {
      s := ReadAck(b);
    } else if b[0] == 6 {
      s := ReadCrypto(b);
    } else if b[0] == 0x1c || b[0] == 0x1d {
      s := ReadClose(b);
    } else {
      s := Stop;
    }
  }

  /** Reads the frame at the front; nothing is left to read when it is unknown or cut off. */
  method ReadNext(rest: seq<byte>, ghost out: seq<Frame>, ghost whole: seq<Frame>) returns (s: Step)
    requires rest != [] && whole == out + ParseFrames(rest)
    ensures s.Stop? ==> whole == out
    ensures s.Next? ==> 0 < s.size <= |rest| && whole == (out + [s.frame]) + ParseFrames(rest[s.size..])
  {
    s := ReadFrame(rest);
  }

  /** Reads every frame; on no input does an index leave the buffer. */
  method ReadFrames(b: seq<byte>) returns (out: seq<Frame>)
    ensures out == ParseFrames(b)
  {
    out := [];
    var i, rest := 0, b;
    ghost var whole := ParseFrames(b);
    while i < |b|
      invariant 0 <= i <= |b| && rest == b[i..]
      invariant whole == out + ParseFrames(rest)
    {
      var s := ReadNext(rest, out, whole);
      if s.Stop? {
        return;
      }
      out := out + [s.frame];
      i, rest := i + s.size, rest[s.size..];
    }
  }

  lemma {:induction false} ZeroRunIs(b: seq<byte>, n: nat)
    requires n <= |b| && (forall i :: 0 <= i < n ==> b[i] == 0) && (n < |b| ==> b[n] != 0)
    ensures ZeroRun(b) == n
  {
  }

  // ------------------------------------------------------------------ writing frames

  function Blob(data: seq<byte>): seq<byte>
    requires |data| < Varint.LIMIT
  {
    Varint.Encode(|data|) + data
  }

  predicate Writable(f: Frame) {
    match f
    case Padding(n) => n > 0
    case Ping => true
    case Ack => false
    case Crypto(off, data) => off < Varint.LIMIT && |data| < Varint.LIMIT
    case Close(code, reason) => code < Varint.LIMIT && |reason| < Varint.LIMIT
  }

  function EncodeFrame(f: Frame): (b: seq<byte>)
    requires Writable(f)
    ensures b != []
  {
    match f
    case Padding(n) => Zeros(n)
    case Ping => [1]
    case Crypto(off, data) => [6] + Varint.Encode(off) + Blob(data)
    case Close(code, reason) => [0x1d] + Varint.Encode(code) + Blob(reason)
  }

  /** The transport variant of a close names the frame type at fault; readers skip it. */
  function EncodeTransportClose(code: nat, fault: nat, reason: seq<byte>): seq<byte>
    requires code < Varint.LIMIT && fault < Varint.LIMIT && |reason| < Varint.LIMIT
  {
    [0x1c] + Varint.Encode(code) + Varint.Encode(fault) + Blob(reason)
  }

  /** Frames that can be written next to one another: two paddings would read as one. */
  predicate Separate(fs: seq<Frame>) {
    && (forall f :: f in fs ==> Writable(f))
    && (forall i :: 0 <= i < |fs| - 1 && fs[i].Padding? ==> !fs[i + 1].Padding?)
  }

  function EncodeFrames(fs: seq<Frame>): seq<byte>
    requires Separate(fs)
  {
    if fs == [] then [] else EncodeFrame(fs[0]) + EncodeFrames(fs[1..])
  }

  lemma VarintAt(front: seq<byte>, v: Varint.uint64, rest: seq<byte>, b: seq<byte>)
    requires b == front + Varint.Encode(v) + rest
    ensures Varint.Decode(b[|front|..]) == (Varint.Low(v), |Varint.Encode(v)|)
  {
    assert b[|front|..] == Varint.Encode(v) + rest;
    Varint.RoundTrip(v, rest);
  }

  lemma BlobRead(front: seq<byte>, data: seq<byte>, rest: seq<byte>, b: seq<byte>)
    requires |data| < Varint.LIMIT && b == front + Blob(data) + rest
    ensures BlobAt(b, |front|) == (data, |front| + |Blob(data)|)
  {
    var e := Varint.Encode(|data|);
    assert b == front + e + (data + rest);
    VarintAt(front, |data|, data + rest, b);
    assert b[|front| + |e|..|front| + |e| + |data|] == data;
  }

  /** An offset of 2^62 or more loses its high bits. */
  lemma CryptoRead(off: Varint.uint64, data: seq<byte>, rest: seq<byte>)
    requires |data| < Varint.LIMIT
    ensures var e := [6] + Varint.Encode(off) + Blob(data);
            FrameAt(e + rest) == Next(Crypto(Varint.Low(off), data), |e|)
  {
    hide Varint.Encode, Varint.Decode, Blob;
    var head, e := [6] + Varint.Encode(off), [6] + Varint.Encode(off) + Blob(data);
    assert e + rest == [6] + Varint.Encode(off) + (Blob(data) + rest);
    VarintAt([6], off, Blob(data) + rest, e + rest);
    BlobRead(head, data, rest, e + rest);
  }

  lemma CloseRead(code: nat, reason: seq<byte>, rest: seq<byte>)
    requires code < Varint.LIMIT && |reason| < Varint.LIMIT
    ensures var e := [0x1d] + Varint.Encode(code) + Blob(reason); FrameAt(e + rest) == Next(Close(code, reason), |e|)
  {
    hide Varint.Encode, Varint.Decode, Blob;
    var head, e := [0x1d] + Varint.Encode(code), [0x1d] + Varint.Encode(code) + Blob(reason);
    assert e + rest == [0x1d] + Varint.Encode(code) + (Blob(reason) + rest);
    VarintAt([0x1d], code, Blob(reason) + rest, e + rest);
    BlobRead(head, reason, rest, e + rest);
  }

  /** Both variants of a close read alike. */
  lemma TransportCloseRead(code: nat, fault: nat, reason: seq<byte>, rest: seq<byte>)
    requires code < Varint.LIMIT && fault < Varint.LIMIT && |reason| < Varint.LIMIT
    ensures var e := EncodeTransportClose(code, fault, reason); FrameAt(e + rest) == Next(Close(code, reason), |e|)
  {
    hide Varint.Encode, Varint.Decode, Blob;
    var e, c, f := EncodeTransportClose(code, fault, reason), Varint.Encode(code), Varint.Encode(fault);
    var b := e + rest;
    assert b == [0x1c] + c + (f + Blob(reason) + rest);
    VarintAt([0x1c], code, f + Blob(reason) + rest, b);
    assert b == ([0x1c] + c) + f + (Blob(reason) + rest);
    VarintAt([0x1c] + c, fault, Blob(reason) + rest, b);
    assert AfterVarints(b, 1 + |c|, 1) == AfterVarints(b, 1 + |c| + |f|, 0);
    BlobRead([0x1c] + c + f, reason, rest, b);
  }

  /** An ACK, with or without ECN counts, is read up to its fourth field, and what follows as the frames it is. */
  lemma AckRead(
    first: byte, largest: Varint.uint64, delay: Varint.uint64, ranges: Varint.uint64, range: Varint.uint64,
    rest: seq<byte>)
    requires first == 2 || first == 3
    ensures var e := [first] + Varint.Encode(largest) + Varint.Encode(delay) + Varint.Encode(ranges)
                     + Varint.Encode(range);
            ParseFrames(e + rest) == [Ack] + ParseFrames(rest)
  {
    hide *;
    var a, b, c, d := Varint.Encode(largest), Varint.Encode(delay), Varint.Encode(ranges), Varint.Encode(range);
    var e := [first] + a + b + c + d;
    AckFields(first, largest, delay, ranges, range, rest);
    AckNext(e + rest, |e|);
    assert (e + rest)[|e|..] == rest;
  }

  lemma AckNext(x: seq<byte>, size: nat)
    requires 0 < size <= |x| && (x[0] == 2 || x[0] == 3) && AfterVarints(x, 1, 4) == size
    ensures ParseFrames(x) == [Ack] + ParseFrames(x[size..])
  {
    hide AfterVarints, CryptoAt, CloseAt;
  }

  lemma AckFields(
    first: byte, largest: Varint.uint64, delay: Varint.uint64, ranges: Varint.uint64, range: Varint.uint64,
    rest: seq<byte>)
    ensures var e := [first] + Varint.Encode(largest) + Varint.Encode(delay) + Varint.Encode(ranges)
                     + Varint.Encode(range);
            AfterVarints(e + rest, 1, 4) == |e|
  {
    hide Varint.Encode, Varint.Decode, AfterVarints;
    var a, b, c, d := Varint.Encode(largest), Varint.Encode(delay), Varint.Encode(ranges), Varint.Encode(range);
    var x := [first] + a + b + c + d + rest;
    assert x == [first] + a + (b + c + d + rest);
    VarintAt([first], largest, b + c + d + rest, x);
    assert x == ([first] + a) + b + (c + d + rest);
    VarintAt([first] + a, delay, c + d + rest, x);
    assert x == ([first] + a + b) + c + (d + rest);
    VarintAt([first] + a + b, ranges, d + rest, x);
    VarintAt([first] + a + b + c, range, rest, x);
    FourIntegers(x, 1, |a|, |b|, |c|, |d|);
  }

  lemma FourIntegers(x: seq<byte>, i: nat, a: nat, b: nat, c: nat, d: nat)
    requires 0 < i && 0 < a && 0 < b && 0 < c && 0 < d && i + a + b + c + d <= |x|
    requires Varint.Decode(x[i..]).1 == a && Varint.Decode(x[i + a..]).1 == b
    requires Varint.Decode(x[i + a + b..]).1 == c && Varint.Decode(x[i + a + b + c..]).1 == d
    ensures AfterVarints(x, i, 4) == i + a + b + c + d
  {
    hide Varint.Decode;
    assert AfterVarints(x, i + a + b + c, 1) == AfterVarints(x, i + a + b + c + d, 0);
    assert AfterVarints(x, i + a + b, 2) == AfterVarints(x, i + a + b + c, 1);
    assert AfterVarints(x, i + a, 3) == AfterVarints(x, i + a + b, 2);
  }

  /** Nothing is read from a frame of an unknown type on. */
  lemma UnknownStops(first: byte, rest: seq<byte>)
    requires first !in {0, 1, 2, 3, 6, 0x1c, 0x1d}
    ensures ParseFrames([first] + rest) == []
  {
  }

  // ------------------------------------------------------------------ cut-off frames

  lemma SliceOfCut(b: seq<byte>, k: nat, from: nat, to: nat)
    requires from <= to <= k <= |b|
    ensures b[..k][from..to] == b[from..to]
  {
  }

  lemma IntegerCut(b: seq<byte>, i: nat, k: nat)
    requires i <= k <= |b|
    ensures var (v, n) := Varint.Decode(b[i..]);
            Varint.Decode(b[..k][i..]) == if i + n <= k then (v, n) else (0, 0)
  {
    var whole, cut := b[i..], b[..k][i..];
    assert cut == whole[..k - i];
    if cut != [] && Varint.SizeOf(cut[0]) <= |cut| {
      SliceOfCut(whole, k - i, 1, Varint.SizeOf(cut[0]));
    }
  }

  lemma {:induction false} IntegersCut(b: seq<byte>, i: nat, n: nat, k: nat)
    requires 0 < i <= k <= |b|
    ensures AfterVarints(b[..k], i, n) == if AfterVarints(b, i, n) <= k then AfterVarints(b, i, n) else 0
    decreases n
  {
    hide Varint.Decode;
    if n > 0 {
      IntegerCut(b, i, k);
      var size := Varint.Decode(b[i..]).1;
      if 0 < size && i + size <= k {
        IntegersCut(b, i + size, n - 1, k);
      }
    }
  }

  lemma BlobCut(b: seq<byte>, i: nat, k: nat)
    requires i <= k <= |b|
    ensures BlobAt(b[..k], i) == if BlobAt(b, i).1 <= k then BlobAt(b, i) else ([], 0)
  {
    hide Varint.Decode;
    IntegerCut(b, i, k);
    var (ln, n) := Varint.Decode(b[i..]);
    if i + n + ln <= k {
      SliceOfCut(b, k, i + n, i + n + ln);
    }
  }

  lemma CloseCut(b: seq<byte>, k: nat)
    requires 0 < k <= |b|
    ensures CloseAt(b[..k]) == if CloseAt(b).Next? && CloseAt(b).size <= k then CloseAt(b) else Stop
  {
    hide Varint.Decode, BlobAt, AfterVarints;
    IntegerCut(b, 1, k);
    var n := Varint.Decode(b[1..]).1;
    if 0 < n && 1 + n <= k {
      IntegersCut(b, 1 + n, 1, k);
      var i := if b[0] == 0x1c then AfterVarints(b, 1 + n, 1) else 1 + n;
      if 0 < i <= k {
        BlobCut(b, i, k);
      }
    }
  }

  lemma AckCut(b: seq<byte>, k: nat)
    requires 0 < k <= |b|
    ensures AckAt(b[..k]) == if AckAt(b).Next? && AckAt(b).size <= k then AckAt(b) else Stop
  {
    hide AfterVarints;
    IntegersCut(b, 1, 4, k);
  }

  lemma CryptoCut(b: seq<byte>, k: nat)
    requires 0 < k <= |b|
    ensures CryptoAt(b[..k]) == if CryptoAt(b).Next? && CryptoAt(b).size <= k then CryptoAt(b) else Stop
  {
    hide Varint.Decode, BlobAt;
    IntegerCut(b, 1, k);
    var n := Varint.Decode(b[1..]).1;
    if 1 + n <= k {
      BlobCut(b, 1 + n, k);
    }
  }

  /** However a frame other than padding is written, it is read alike with more or less behind it, and never in part. */
  lemma FrameCut(b: seq<byte>, k: nat)
    requires 0 < k <= |b| && b[0] != 0
    ensures FrameAt(b[..k]) == if FrameAt(b).Next? && FrameAt(b).size <= k then FrameAt(b) else Stop
  {
    hide AckAt, CryptoAt, CloseAt;
    AckCut(b, k);
    CryptoCut(b, k);
    CloseCut(b, k);
  }

  lemma PaddingRead(n: nat, rest: seq<byte>)
    requires n > 0 && (rest == [] || rest[0] != 0)
    ensures FrameAt(Zeros(n) + rest) == Next(Padding(n), n)
  {
    ZeroRunIs(Zeros(n) + rest, n);
  }

  lemma PingRead(rest: seq<byte>)
    ensures FrameAt([1] + rest) == Next(Ping, 1)
  {
  }

  /** One written frame is read back, whatever follows it. */
  lemma FrameRoundTrip(f: Frame, rest: seq<byte>)
    requires Writable(f) && (f.Padding? ==> rest == [] || rest[0] != 0)
    ensures FrameAt(EncodeFrame(f) + rest) == Next(f, |EncodeFrame(f)|)
  {
    hide Varint.Encode, Varint.Decode, FrameAt;
    match f
    case Padding(n) => PaddingRead(n, rest);
    case Ping => PingRead(rest);
    case Crypto(off, data) => CryptoRead(off, data, rest);
    case Close(code, reason) => CloseRead(code, reason, rest);
  }

  /** Reading what was written gives back the same frames in order. */
  lemma {:induction false} FramesRoundTrip(fs: seq<Frame>)
    requires Separate(fs)
    ensures ParseFrames(EncodeFrames(fs)) == fs
    decreases |fs|
  {
    if fs != [] {
      var e, rest := EncodeFrame(fs[0]), EncodeFrames(fs[1..]);
      if |fs| > 1 {
        assert fs[1] in fs && fs[1..][0] == fs[1];
      }
      FirstByte(fs[1..]);
      FrameRoundTrip(fs[0], rest);
      FramesRoundTrip(fs[1..]);
      assert (e + rest)[|e|..] == rest;
    }
  }

  lemma FirstByte(fs: seq<Frame>)
    requires Separate(fs)
    ensures fs == [] ==> EncodeFrames(fs) == []
    ensures fs != [] ==> EncodeFrames(fs) != [] && (EncodeFrames(fs)[0] == 0 <==> fs[0].Padding?)
  {
    if fs != [] {
      assert EncodeFrames(fs)[0] == EncodeFrame(fs[0])[0];
    }
  }
}
