/** Finding the server name in a ClientHello (section 4.1.2 of RFC 8446, section 3 of RFC 6066). */
module Sni {
  import opened Bits
  import opened Options

  type Bytes = seq<byte>

  const FIXED: nat := 38

  /** The first entry of a server name list, if it is a host name that fits; otherwise nothing. */
  function HostOf(d: Bytes): Bytes {
    if |d| >= 5 && d[2] == 0 && 5 + Get16(d[3..5]) <= |d| then d[5..5 + Get16(d[3..5])] else []
  }

  /** Where the extensions start and where they say they end. */
  function Extensions(b: Bytes): (r: Option<(nat, nat)>)
    ensures r.Some? ==> FIXED < r.value.0 <= |b| && r.value.0 <= r.value.1
  {
    if |b| < FIXED + 1 || b[0] != 1 then None
    else
      var p := FIXED + 1 + b[FIXED];
      if p + 2 > |b| then None
      else
        var q := p + 2 + Get16(b[p..p + 2]);
        if q + 1 > |b| then None
        else
          var r := q + 1 + b[q];
          if r + 2 > |b| then None else Some((r + 2, r + 2 + Get16(b[r..r + 2])))
  }

  /** The first extension of type zero from index p on. */
  function Walk(b: Bytes, p: nat, end: nat): Bytes
    decreases |b| - p
  {
    if p + 4 > |b| || p + 4 > end then []
    else
      var size := Get16(b[p + 2..p + 4]);
      if p + 4 + size > |b| then []
      else if Get16(b[p..p + 2]) == 0 then HostOf(b[p + 4..p + 4 + size])
      else Walk(b, p + 4 + size, end)
  }

  function NameIn(b: Bytes): Bytes {
    match Extensions(b)
    case None => []
    case Some((p, end)) => Walk(b, p, end)
  }

  /** One moving index over any bytes at all; it never leaves them. */
  method ParseSni(b: Bytes) returns (name: Bytes)
    ensures name == NameIn(b)
  {
    if |b| < FIXED || b[0] != 1 {
      return [];
    }
    var p := FIXED;
    if p >= |b| {
      return [];
    }
    p := p + 1 + b[p];
    if p + 2 > |b| {
      return [];
    }
    p := p + 2 + Get16(b[p..p + 2]);
    if p + 1 > |b| {
      return [];
    }
    p := p + 1 + b[p];
    if p + 2 > |b| {
      return [];
    }
    var end := p + 2 + Get16(b[p..p + 2]);
    p := p + 2;
    name := ParseExtensions(b, p, end);
  }

  method ParseExtensions(b: Bytes, start: nat, end: nat) returns (name: Bytes)
    requires start <= |b|
    ensures name == Walk(b, start, end)
  {
    var p := start;
    while p + 4 <= |b| && p + 4 <= end
      invariant start <= p <= |b| && Walk(b, p, end) == Walk(b, start, end)
      decreases |b| - p
    {
      var kind, size := Get16(b[p..p + 2]), Get16(b[p + 2..p + 4]);
      p := p + 4;
      if p + size > |b| {
        return [];
      }
      if kind == 0 {
        var d := b[p..p + size];
        if |d| >= 5 && d[2] == 0 {
          var n := Get16(d[3..5]);
          if 5 + n <= |d| {
            return d[5..5 + n];
          }
        }
        return [];
      }
      p := p + size;
    }
    name := [];
  }

  // ------------------------------------------------------------------ what a client writes

  datatype Extension = Extension(kind: uint16, data: Bytes)

  datatype Hello = Hello(
    version: uint16, random: Bytes, session: Bytes, suites: Bytes, compression: Bytes, extensions: seq<Extension>)
  {
    /** The widths of the length fields, and nothing else. */
    predicate Fits() {
      && |random| == 32 && |session| <= 0xff && |suites| <= 0xffff && |compression| <= 0xff
      && (forall e :: e in extensions ==> |e.data| <= 0xffff) && |AllExtensions(extensions)| <= 0xffff
    }

    /** The handshake message; its own length is not looked at. */
    function Encode(length: Bytes): Bytes
      requires Fits() && |length| == 3
    {
      ([1] + length + Put16(version) + random) + [|session|] + session + Put16(|suites|) + suites
      + [|compression|] + compression + Put16(|AllExtensions(extensions)|) + AllExtensions(extensions)
    }
  }

  function AllExtensions(es: seq<Extension>): Bytes {
    if es == [] then [] else ExtensionBytes(es[0]) + AllExtensions(es[1..])
  }

  function ExtensionBytes(e: Extension): (b: Bytes)
    ensures |b| == 4 + |e.data|
  {
    Put16(e.kind) + Put16(Truncate16(|e.data|)) + e.data
  }

  /** The first server_name extension decides. */
  function FirstName(es: seq<Extension>): Bytes {
    if es == [] then [] else if es[0].kind == 0 then HostOf(es[0].data) else FirstName(es[1..])
  }

  /** A name list: a host name, then whatever entries follow. */
  function NameList(host: Bytes, others: Bytes): Bytes
    requires |host| + |others| <= 65532
  {
    Put16(3 + |host| + |others|) + [0] + Put16(|host|) + host + others
  }

  lemma HostRead(host: Bytes, others: Bytes)
    requires |host| + |others| <= 65532
    ensures HostOf(NameList(host, others)) == host
  {
    var d := NameList(host, others);
    assert d[3..5] == Put16(|host|);
    assert d[5..5 + |host|] == host;
  }

  lemma {:induction false} WalkReads(b: Bytes, p: nat, es: seq<Extension>)
    requires forall e :: e in es ==> |e.data| <= 0xffff
    requires p + |AllExtensions(es)| <= |b| && b[p..p + |AllExtensions(es)|] == AllExtensions(es)
    ensures Walk(b, p, p + |AllExtensions(es)|) == FirstName(es)
    decreases |es|
  {
    hide HostOf, Get16, Put16;
    if es != [] {
      var e, rest := es[0], AllExtensions(es[1..]);
      var all := AllExtensions(es);
      ExtensionAt(b, p, Put16(e.kind), Put16(Truncate16(|e.data|)), e.data, rest, all);
      if e.kind != 0 {
        WalkReads(b, p + 4 + |e.data|, es[1..]);
      }
    }
  }

  lemma ExtensionAt(b: Bytes, p: nat, kind: Bytes, size: Bytes, data: Bytes, rest: Bytes, all: Bytes)
    requires |kind| == 2 && |size| == 2 && all == kind + size + data + rest
    requires p + |all| <= |b| && b[p..p + |all|] == all
    ensures b[p..p + 2] == kind && b[p + 2..p + 4] == size
    ensures b[p + 4..p + 4 + |data|] == data && b[p + 4 + |data|..p + |all|] == rest
  {
    Inside(b, p, all, 0, 2);
    Inside(b, p, all, 2, 4);
    Inside(b, p, all, 4, 4 + |data|);
    Inside(b, p, all, 4 + |data|, |all|);
  }

  lemma Inside(b: Bytes, p: nat, all: Bytes, i: nat, j: nat)
    requires i <= j <= |all| && p + |all| <= |b| && b[p..p + |all|] == all
    ensures b[p + i..p + j] == all[i..j]
  {
    forall k | 0 <= k < j - i
      ensures b[p + i..p + j][k] == all[i..j][k]
    {
      assert all[i + k] == b[p..p + |all|][i + k];
    }
  }

  lemma ExtensionsAt(x: Bytes, head: Bytes, s: Bytes, c: Bytes, m: Bytes, n2: Bytes, l2: Bytes, es: Bytes, more: Bytes)
    requires |head| == FIXED && head[0] == 1 && |s| <= 0xff && |m| <= 0xff && |n2| == 2 && |l2| == 2
    requires Get16(n2) == |c| && Get16(l2) == |es|
    requires x == head + [|s|] + s + n2 + c + [|m|] + m + l2 + es + more
    ensures var at := FIXED + 6 + |s| + |c| + |m|;
            Extensions(x) == Some((at, at + |es|)) && x[at..at + |es|] == es
  {
    hide Get16;
    var p := FIXED + 1 + |s|;
    var q := p + 2 + |c|;
    var r := q + 1 + |m|;
    assert x[FIXED] == |s| && x[q] == |m|;
    assert x[p..p + 2] == n2;
    assert x[r..r + 2] == l2;
  }

  /**
    Whatever session, suites, compression methods and extensions come first, and whatever follows the message:
    the name found is that of the first server_name extension, and nothing when there is none.
    */
  lemma HelloRead(h: Hello, length: Bytes, more: Bytes)
    requires h.Fits() && |length| == 3
    ensures NameIn(h.Encode(length) + more) == FirstName(h.extensions)
  {
    hide Walk, FirstName, Extensions, AllExtensions, Get16, Put16;
    var head := [1] + length + Put16(h.version) + h.random;
    var x, es := h.Encode(length) + more, AllExtensions(h.extensions);
    assert head[0] == 1;
    ExtensionsAt(x, head, h.session, h.suites, h.compression, Put16(|h.suites|), Put16(|es|), es, more);
    WalkReads(x, FIXED + 6 + |h.session| + |h.suites| + |h.compression|, h.extensions);
  }

  /** A well-formed server name anywhere behind other extensions comes back. */
  lemma {:induction false} NameFound(before: seq<Extension>, host: Bytes, others: Bytes, after: seq<Extension>)
    requires |host| + |others| <= 65532 && forall e :: e in before ==> e.kind != 0
    ensures FirstName(before + [Extension(0, NameList(host, others))] + after) == host
    decreases |before|
  {
    var es := before + [Extension(0, NameList(host, others))] + after;
    if before == [] {
      HostRead(host, others);
    } else {
      NameFound(before[1..], host, others, after);
      assert es[1..] == before[1..] + [Extension(0, NameList(host, others))] + after;
    }
  }
}
