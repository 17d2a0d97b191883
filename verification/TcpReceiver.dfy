/**
  The reference receiver: an ESTABLISHED connection handling arriving segments as section
  3.9 of RFC 793 describes. Segments outside the window are dropped, the rest are trimmed to
  the window and held until the octets before them are there. Sequence numbers are modulo
  2^32. What happens when two segments carry the same octet is left open: keepFirst picks
  either policy, and every theorem is for both.
  */
module TcpReceiver {
  import opened Bits

  const MODULUS: int := 0x1_0000_0000
  /** The largest window section 2.3 of RFC 7323 allows. */
  const MAX_WINDOW: nat := 0x4000_0000

  /** An octet of the stream; an urgent one is handed over out of band. */
  datatype Octet = Octet(b: byte, urgent: bool)

  datatype Segment = Segment(number: uint32, syn: bool, ack: bool, urgentPointer: nat, payload: seq<byte>)
  {
    /** The urgent octet is the one just before the urgent pointer. */
    function At(i: nat): Octet
      requires i < |payload|
    {
      Octet(payload[i], urgentPointer == i + 1)
    }
  }

  datatype Receiver = Receiver(
    next: uint32, window: nat, keepFirst: bool,
    held: map<uint32, Octet>, stream: seq<Octet>, reset: bool)

  function Start(base: uint32, window: nat, keepFirst: bool): Receiver {
    Receiver(base, window, keepFirst, map[], [], false)
  }

  /** The sequence number off octets after base. */
  function SeqAt(base: int, off: int): uint32 {
    (base + off) % MODULUS
  }

  /** How far pos lies ahead of base, counting around the circle. */
  function Ahead(base: int, pos: int): (d: nat)
    ensures d < MODULUS
  {
    (pos - base) % MODULUS
  }

  predicate InWindow(r: Receiver, pos: uint32) {
    Ahead(r.next, pos) < r.window
  }

  /** The acceptability test: one end of the segment is in the window. */
  predicate Acceptable(r: Receiver, s: Segment) {
    || InWindow(r, s.number)
    || (s.payload != [] && InWindow(r, SeqAt(s.number, |s.payload| - 1)))
  }

  function Insert(r: Receiver, held: map<uint32, Octet>, pos: uint32, o: Octet): map<uint32, Octet> {
    if !InWindow(r, pos) || (r.keepFirst && pos in held) then held else held[pos := o]
  }

  /** The octets of s from index i on that fall in the window, added to held. */
  function Store(r: Receiver, s: Segment, held: map<uint32, Octet>, i: nat): map<uint32, Octet>
    requires i <= |s.payload|
    decreases |s.payload| - i
  {
    if i == |s.payload| then held
    else Store(r, s, Insert(r, held, SeqAt(s.number, i), s.At(i)), i + 1)
  }

  /** Hands over held octets as long as the next one is there. */
  function Drain(next: uint32, held: map<uint32, Octet>, stream: seq<Octet>): (uint32, map<uint32, Octet>, seq<Octet>)
    decreases |held|
  {
    if next !in held then (next, held, stream)
    else
      assert |held - {next}| < |held| by { assert held == (held - {next})[next := held[next]]; }
      Drain(SeqAt(next, 1), held - {next}, stream + [held[next]])
  }

  /** One arriving segment; a SYN inside the window resets the connection. */
  function Arrive(r: Receiver, s: Segment): Receiver {
    if r.reset || !Acceptable(r, s) then r
    else if s.syn then r.(reset := true)
    else if !s.ack then r
    else
      var (next, held, stream) := Drain(r.next, Store(r, s, r.held, 0), r.stream);
      r.(next := next, held := held, stream := stream)
  }

  function ArriveAll(r: Receiver, ss: seq<Segment>): Receiver
    decreases |ss|
  {
    if ss == [] then r else ArriveAll(Arrive(r, ss[0]), ss[1..])
  }

  /** What the application reads in band. */
  function InBand(stream: seq<Octet>): seq<byte> {
    if stream == [] then []
    else (if stream[0].urgent then [] else [stream[0].b]) + InBand(stream[1..])
  }

  /** What an observer that takes every octet of the stream in order reads. */
  function AllBytes(stream: seq<Octet>): (bs: seq<byte>)
    ensures |bs| == |stream|
  {
    seq(|stream|, i requires 0 <= i < |stream| => stream[i].b)
  }

  function Plain(bs: seq<byte>): (os: seq<Octet>)
    ensures |os| == |bs|
    ensures forall i :: 0 <= i < |bs| ==> os[i] == Octet(bs[i], false)
  {
    seq(|bs|, i requires 0 <= i < |bs| => Octet(bs[i], false))
  }

  // ------------------------------------------------------------------ modular arithmetic

  lemma AheadOf(base: int, from: int, to: int)
    ensures 0 <= to - from < MODULUS ==> Ahead(SeqAt(base, from), SeqAt(base, to)) == to - from
    ensures -MODULUS <= to - from < 0 ==> Ahead(SeqAt(base, from), SeqAt(base, to)) == to - from + MODULUS
  {
  }

  lemma SeqAtZero(base: uint32)
    ensures SeqAt(base, 0) == base
  {
  }

  lemma SeqAtCompose(base: int, a: int, b: int)
    ensures SeqAt(SeqAt(base, a), b) == SeqAt(base, a + b)
  {
  }

  lemma SeqAtOfAhead(base: uint32, pos: uint32)
    ensures SeqAt(base, Ahead(base, pos)) == pos
  {
  }

  // ------------------------------------------------------------------ the stream

  /** The octets truth, sent from sequence number base on, fit one window. */
  predicate Sendable(truth: seq<Octet>, window: nat) {
    |truth| <= window <= MAX_WINDOW
  }

  predicate HeldAgrees(held: map<uint32, Octet>, base: uint32, truth: seq<Octet>, from: nat) {
    forall pos :: pos in held ==> from <= Ahead(base, pos) < |truth| && held[pos] == truth[Ahead(base, pos)]
  }

  /** The receiver has delivered a prefix of truth and holds only octets of truth. */
  predicate Tracks(r: Receiver, base: uint32, truth: seq<Octet>) {
    && !r.reset
    && Sendable(truth, r.window)
    && |r.stream| <= |truth|
    && r.stream == truth[..|r.stream|]
    && r.next == SeqAt(base, |r.stream|)
    && r.next !in r.held
    && HeldAgrees(r.held, base, truth, |r.stream|)
  }

  /** Octet j has reached the receiver. */
  predicate Has(r: Receiver, base: uint32, j: nat) {
    Reached(r.held, |r.stream|, base, j)
  }

  /**
    A segment starting off octets after base (before it when off is negative) whose octets
    at and after base are those of truth. Anything may stand left of base.
    */
  predicate Genuine(s: Segment, base: uint32, truth: seq<Octet>, off: int) {
    && s.number == SeqAt(base, off)
    && !s.syn && s.ack
    && |s.payload| <= 0xffff
    && -0xffff <= off
    && off + |s.payload| <= |truth|
    && forall i :: 0 <= i < |s.payload| && 0 <= off + i ==> s.At(i) == truth[off + i]
  }

  /** A segment that lies wholly left of base, however close to it. */
  predicate LeftOf(s: Segment, base: uint32, off: int) {
    && s.number == SeqAt(base, off)
    && |s.payload| <= 0xffff
    && -(MAX_WINDOW as int) <= off
    && off + |s.payload| <= 0
    && off < 0
  }

  predicate Covers(s: Segment, off: int, j: nat) {
    off <= j < off + |s.payload|
  }

  lemma StartTracks(base: uint32, window: nat, keepFirst: bool, truth: seq<Octet>)
    requires Sendable(truth, window)
    ensures Tracks(Start(base, window, keepFirst), base, truth)
  {
  }

  /** Storing one octet of truth keeps the held octets true. */
  lemma InsertAgrees(r: Receiver, held: map<uint32, Octet>, base: uint32, truth: seq<Octet>, at: int, o: Octet)
    requires Tracks(r, base, truth) && HeldAgrees(held, base, truth, |r.stream|)
    requires -0xffff <= at < |truth| && (0 <= at ==> o == truth[at])
    ensures HeldAgrees(Insert(r, held, SeqAt(base, at), o), base, truth, |r.stream|)
    ensures held.Keys <= Insert(r, held, SeqAt(base, at), o).Keys
    ensures |r.stream| <= at ==> SeqAt(base, at) in Insert(r, held, SeqAt(base, at), o)
  {
    AheadOf(base, |r.stream|, at);
    if |r.stream| <= at {
      AheadOfBase(base, at);
    }
  }

  lemma AheadOfBase(base: uint32, at: nat)
    requires at < MODULUS
    ensures Ahead(base, SeqAt(base, at)) == at
  {
  }

  lemma {:induction false} StoreAgrees(
    r: Receiver, s: Segment, held: map<uint32, Octet>, i: nat, base: uint32, truth: seq<Octet>, off: int)
    requires Tracks(r, base, truth) && Genuine(s, base, truth, off) && i <= |s.payload|
    requires HeldAgrees(held, base, truth, |r.stream|)
    ensures HeldAgrees(Store(r, s, held, i), base, truth, |r.stream|)
    ensures held.Keys <= Store(r, s, held, i).Keys
    ensures forall j :: |r.stream| <= j && off + i <= j < off + |s.payload| ==> SeqAt(base, j) in Store(r, s, held, i)
    decreases |s.payload| - i
  {
    if i < |s.payload| {
      SeqAtCompose(base, off, i);
      InsertAgrees(r, held, base, truth, off + i, s.At(i));
      StoreAgrees(r, s, Insert(r, held, SeqAt(s.number, i), s.At(i)), i + 1, base, truth, off);
    }
  }

  /** Handing over the next octet leaves only later octets held. */
  lemma HandOver(held: map<uint32, Octet>, base: uint32, truth: seq<Octet>, n: nat)
    requires |truth| <= MAX_WINDOW && HeldAgrees(held, base, truth, n) && SeqAt(base, n) in held
    ensures n < |truth| && held[SeqAt(base, n)] == truth[n]
    ensures HeldAgrees(held - {SeqAt(base, n)}, base, truth, n + 1)
    ensures SeqAt(SeqAt(base, n), 1) == SeqAt(base, n + 1)
  {
    var pos := SeqAt(base, n);
    SeqAtCompose(base, n, 1);
    assert Ahead(base, pos) < |truth|;
    SeqAtOfAhead(base, pos);
    assert Ahead(base, pos) == n by {
      if n < MODULUS {
        AheadOfBase(base, n);
      }
    }
    forall other | other in held && other != pos
      ensures n + 1 <= Ahead(base, other)
    {
      SeqAtOfAhead(base, other);
    }
  }

  predicate Reached(held: map<uint32, Octet>, delivered: nat, base: uint32, j: nat) {
    j < delivered || SeqAt(base, j) in held
  }

  lemma {:induction false} DrainAgrees(
    held: map<uint32, Octet>, stream: seq<Octet>, base: uint32, truth: seq<Octet>)
    requires |truth| <= MAX_WINDOW
    requires |stream| <= |truth| && stream == truth[..|stream|]
    requires HeldAgrees(held, base, truth, |stream|)
    ensures var (next', held', stream') := Drain(SeqAt(base, |stream|), held, stream);
            && |stream| <= |stream'| <= |truth| && stream' == truth[..|stream'|]
            && next' == SeqAt(base, |stream'|) && next' !in held'
            && HeldAgrees(held', base, truth, |stream'|)
            && forall j :: 0 <= j < |truth| && Reached(held, |stream|, base, j) ==> Reached(held', |stream'|, base, j)
    decreases |held|
  {
    var next := SeqAt(base, |stream|);
    if next in held {
      HandOver(held, base, truth, |stream|);
      var held1, stream1 := held - {next}, stream + [held[next]];
      assert |held1| < |held| by { assert held == held1[next := held[next]]; }
      DrainAgrees(held1, stream1, base, truth);
      forall j | 0 <= j < |truth| && Reached(held, |stream|, base, j)
        ensures Reached(held1, |stream1|, base, j)
      {
        if j >= |stream1| {
          DistinctPositions(base, |stream|, j);
        }
      }
    }
  }

  lemma DistinctPositions(base: int, a: nat, b: nat)
    requires a < b < MODULUS
    ensures SeqAt(base, a) != SeqAt(base, b)
  {
    AheadOf(base, a, b);
  }

  /** A genuine segment keeps the receiver on the truth, loses nothing and adds what it covers. */
  lemma GenuineArrives(r: Receiver, s: Segment, base: uint32, truth: seq<Octet>, off: int)
    requires Tracks(r, base, truth) && Genuine(s, base, truth, off)
    ensures Tracks(Arrive(r, s), base, truth)
    ensures Arrive(r, s).window == r.window
    ensures forall j :: 0 <= j < |truth| && (Has(r, base, j) || Covers(s, off, j)) ==> Has(Arrive(r, s), base, j)
  {
    if Acceptable(r, s) {
      StoreAgrees(r, s, r.held, 0, base, truth, off);
      DrainAgrees(Store(r, s, r.held, 0), r.stream, base, truth);
    } else {
      NothingNew(r, s, base, truth, off);
    }
  }

  /** An unacceptable genuine segment only repeats octets already delivered. */
  lemma NothingNew(r: Receiver, s: Segment, base: uint32, truth: seq<Octet>, off: int)
    requires Tracks(r, base, truth) && Genuine(s, base, truth, off) && !Acceptable(r, s)
    ensures forall j :: 0 <= j && Covers(s, off, j) ==> j < |r.stream|
  {
    if s.payload != [] {
      var last := off + |s.payload| - 1;
      SeqAtCompose(base, off, |s.payload| - 1);
      AheadOf(base, |r.stream|, last);
    }
  }

  lemma {:induction false} StoreNothing(r: Receiver, s: Segment, i: nat)
    requires i <= |s.payload|
    requires forall k :: i <= k < |s.payload| ==> !InWindow(r, SeqAt(s.number, k))
    ensures Store(r, s, r.held, i) == r.held
    decreases |s.payload| - i
  {
    if i < |s.payload| {
      StoreNothing(r, s, i + 1);
    }
  }

  /** A segment wholly behind the next octet changes nothing. */
  lemma BehindArrives(r: Receiver, s: Segment, off: int)
    requires r.window <= MAX_WINDOW && s.number == SeqAt(r.next, off)
    requires -2 * (MAX_WINDOW as int) <= off < 0 && off + |s.payload| <= 0
    ensures Arrive(r, s) == r
  {
    forall k: int | 0 <= k < |s.payload| || k == 0
      ensures !InWindow(r, SeqAt(s.number, k))
    {
      SeqAtCompose(r.next, off, k);
      SeqAtZero(r.next);
      AheadOf(r.next, 0, off + k);
    }
    SeqAtZero(s.number);
  }

  /** A segment wholly left of the stream changes nothing. */
  lemma LeftArrives(r: Receiver, s: Segment, base: uint32, truth: seq<Octet>, off: int)
    requires Tracks(r, base, truth) && LeftOf(s, base, off)
    ensures Arrive(r, s) == r
  {
    SeqAtCompose(base, |r.stream|, off - |r.stream|);
    BehindArrives(r, s, off - |r.stream|);
  }

  /** Everything that reaches the receiver is genuine or lies left of the stream. */
  ghost predicate Expected(s: Segment, base: uint32, truth: seq<Octet>) {
    || (exists off: int :: Genuine(s, base, truth, off))
    || (exists off: int :: LeftOf(s, base, off))
  }

  ghost predicate Carries(s: Segment, base: uint32, truth: seq<Octet>, j: nat) {
    exists off: int :: Genuine(s, base, truth, off) && Covers(s, off, j)
  }

  ghost predicate Carried(ss: seq<Segment>, base: uint32, truth: seq<Octet>, j: nat) {
    exists s :: s in ss && Carries(s, base, truth, j)
  }

  lemma ExpectedArrives(r: Receiver, s: Segment, base: uint32, truth: seq<Octet>)
    requires Tracks(r, base, truth) && Expected(s, base, truth)
    ensures Tracks(Arrive(r, s), base, truth) && Arrive(r, s).window == r.window
    ensures forall j :: 0 <= j < |truth| && (Has(r, base, j) || Carries(s, base, truth, j)) ==>
            Has(Arrive(r, s), base, j)
  {
    if off: int :| LeftOf(s, base, off) {
      LeftArrives(r, s, base, truth, off);
      forall j, o: int | 0 <= j < |truth| && Genuine(s, base, truth, o) && Covers(s, o, j)
        ensures Has(r, base, j)
      {
        GenuineArrives(r, s, base, truth, o);
      }
    } else {
      var g: int :| Genuine(s, base, truth, g);
      GenuineArrives(r, s, base, truth, g);
      forall j, o: int | 0 <= j < |truth| && Genuine(s, base, truth, o) && Covers(s, o, j)
        ensures Has(Arrive(r, s), base, j)
      {
        GenuineArrives(r, s, base, truth, o);
      }
    }
  }

  lemma {:induction false} AllArrive(r: Receiver, ss: seq<Segment>, base: uint32, truth: seq<Octet>)
    requires Tracks(r, base, truth)
    requires forall s :: s in ss ==> Expected(s, base, truth)
    ensures Tracks(ArriveAll(r, ss), base, truth) && ArriveAll(r, ss).window == r.window
    ensures forall j :: 0 <= j < |truth| && (Has(r, base, j) || Carried(ss, base, truth, j)) ==>
                        Has(ArriveAll(r, ss), base, j)
    decreases |ss|
  {
    if ss != [] {
      ExpectedArrives(r, ss[0], base, truth);
      AllArrive(Arrive(r, ss[0]), ss[1..], base, truth);
      forall j | 0 <= j < |truth| && Carried(ss, base, truth, j)
        ensures Has(ArriveAll(r, ss), base, j)
      {
        var s :| s in ss && Carries(s, base, truth, j);
        if s != ss[0] {
          assert s in ss[1..];
        }
      }
    }
  }

  /**
    Whatever the order and however often segments are repeated, once every octet of the
    stream has been carried by some genuine segment the receiver has delivered exactly it.
    */
  lemma Reassembles(ss: seq<Segment>, base: uint32, truth: seq<Octet>, window: nat, keepFirst: bool)
    requires Sendable(truth, window)
    requires forall s :: s in ss ==> Expected(s, base, truth)
    requires forall j :: 0 <= j < |truth| ==> Carried(ss, base, truth, j)
    ensures var r := ArriveAll(Start(base, window, keepFirst), ss);
            r.stream == truth && r.next == SeqAt(base, |truth|) && !r.reset && r.window == window
  {
    StartTracks(base, window, keepFirst, truth);
    AllArrive(Start(base, window, keepFirst), ss, base, truth);
    var r := ArriveAll(Start(base, window, keepFirst), ss);
    var j: nat := |r.stream|;
    assert j < |truth| ==> Carried(ss, base, truth, j);
  }

  lemma {:induction false} ArriveAllConcat(r: Receiver, a: seq<Segment>, b: seq<Segment>)
    ensures ArriveAll(r, a + b) == ArriveAll(ArriveAll(r, a), b)
    decreases |a|
  {
    if a == [] {
      assert a + b == b;
    } else {
      assert (a + b)[1..] == a[1..] + b;
      ArriveAllConcat(Arrive(r, a[0]), a[1..], b);
    }
  }

  predicate Behind(r: Receiver, s: Segment, off: int) {
    s.number == SeqAt(r.next, off) && -2 * (MAX_WINDOW as int) <= off < 0 && off + |s.payload| <= 0
  }

  ghost predicate IsBehind(r: Receiver, s: Segment) {
    exists off: int :: Behind(r, s, off)
  }

  lemma {:induction false} AllBehind(r: Receiver, ss: seq<Segment>)
    requires r.window <= MAX_WINDOW
    requires forall s :: s in ss ==> IsBehind(r, s)
    ensures ArriveAll(r, ss) == r
    decreases |ss|
  {
    if ss != [] {
      assert IsBehind(r, ss[0]);
      var off: int :| Behind(r, ss[0], off);
      BehindArrives(r, ss[0], off);
      AllBehind(r, ss[1..]);
    }
  }

  // ------------------------------------------------------------------ reading the stream

  lemma {:induction false} InBandConcat(a: seq<Octet>, b: seq<Octet>)
    ensures InBand(a + b) == InBand(a) + InBand(b)
  {
    if a == [] {
      assert a + b == b;
    } else {
      assert (a + b)[1..] == a[1..] + b;
      InBandConcat(a[1..], b);
    }
  }

  lemma {:induction false} InBandPlain(bs: seq<byte>)
    ensures InBand(Plain(bs)) == bs
  {
    if bs != [] {
      assert Plain(bs)[1..] == Plain(bs[1..]);
      InBandPlain(bs[1..]);
    }
  }
}
