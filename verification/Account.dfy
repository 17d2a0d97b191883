/** The WARP device record: what replies of the registration API make of it, and when a new device is made. */
module Account {
  import opened Options

  datatype HostPorts = HostPorts(host: string, ports: seq<int>)

  datatype Tunnel = Wireguard | Masque

  /** The key of the MASQUE transport, and the peer's once it is known. */
  datatype H2Key = H2Key(privateKey: string, peerKey: string)

  datatype Device = Device(
    privateKey: string, id: string, token: string, clientId: string, addrV4: string, addrV6: string, peerKey: string,
    v4: string, ports: seq<int>, alt: seq<HostPorts>,
    tunnel: Tunnel, h2: Option<H2Key>, retried: bool)

  /** The parts of a reply that reach the record; address is empty when the peer names none. */
  datatype Reply = Reply(
    id: string, token: string, clientId: string, addrV4: string, addrV6: string,
    peers: bool, peerKey: string, address: string, ports: seq<int>)

  // ------------------------------------------------------------------ one reply

  /** Up to the last colon, unless that is the first character or absent. */
  function HostOf(address: string): (h: string)
    ensures h <= address && (h == "" <==> address == "")
  {
    var i := LastColon(address);
    if i > 0 then address[..i] else address
  }

  function LastColon(s: string): (i: int)
    ensures -1 <= i < |s|
  {
    if s == [] then -1 else if s[|s| - 1] == ':' then |s| - 1 else LastColon(s[..|s| - 1])
  }

  /** The place of a host among the spares; their number when it is not there. */
  function Spare(alt: seq<HostPorts>, host: string): (i: nat)
    ensures i <= |alt| && (i < |alt| ==> alt[i].host == host)
    ensures forall k :: 0 <= k < i ==> alt[k].host != host
  {
    if alt == [] then 0 else if alt[0].host == host then 0 else 1 + Spare(alt[1..], host)
  }

  function WithSpare(alt: seq<HostPorts>, h: HostPorts): seq<HostPorts> {
    if Spare(alt, h.host) < |alt| then alt[Spare(alt, h.host) := h] else alt + [h]
  }

  function Identified(d: Device, r: Reply): Device {
    (if r.id != "" && d.id == "" then d.(id := r.id, token := r.token) else d)
    .(clientId := r.clientId, addrV4 := r.addrV4, addrV6 := r.addrV6, peerKey := r.peerKey)
  }

  /** A reply carried over into the record; none without a peer. */
  function Applied(d: Device, r: Reply, initial: bool): Option<Device> {
    if !r.peers then None
    else
      var e, host := Identified(d, r), HostOf(r.address);
      if d.tunnel.Masque? then Some(e)
      else if initial || d.v4 == "" then Some(e.(v4 := host, ports := r.ports))
      else if host == "" || host == d.v4 then Some(e)
      else Some(e.(alt := WithSpare(d.alt, HostPorts(host, r.ports))))
  }

  lemma {:induction false} LastColonIs(s: string, i: int)
    requires -1 <= i < |s| && (i >= 0 ==> s[i] == ':') && forall k :: i < k < |s| ==> s[k] != ':'
    ensures LastColon(s) == i
    decreases |s|
  {
    if s != [] && i < |s| - 1 {
      LastColonIs(s[..|s| - 1], i);
    }
  }

  /** The port is cut off, whatever colons the host has itself; a host without a port stays. */
  lemma PortCutOff(host: string, port: string)
    requires host != "" && forall c :: c in port ==> c != ':'
    ensures HostOf(host + ":" + port) == host
    ensures (forall c :: c in host ==> c != ':') ==> HostOf(host) == host
    ensures HostOf(":" + port) == ":" + port
  {
    var a := host + ":" + port;
    forall k | |host| < k < |a|
      ensures a[k] != ':'
    {
      assert a[k] == port[k - |host| - 1] && port[k - |host| - 1] in port;
    }
    LastColonIs(a, |host|);
    if forall c :: c in host ==> c != ':' {
      assert forall k :: 0 <= k < |host| ==> host[k] in host;
      LastColonIs(host, -1);
    }
    var b := ":" + port;
    forall k | 0 < k < |b|
      ensures b[k] != ':'
    {
      assert b[k] == port[k - 1] && port[k - 1] in port;
    }
    LastColonIs(b, 0);
  }

  /** Where each part of a reply lands: identity once and together, the rest as it comes; keys and tunnel stay. */
  lemma FieldsApplied(d: Device, r: Reply, initial: bool)
    ensures Applied(d, r, initial).Some? <==> r.peers
    ensures r.peers ==>
            var e := Applied(d, r, initial).value;
            && e.clientId == r.clientId && e.addrV4 == r.addrV4 && e.addrV6 == r.addrV6 && e.peerKey == r.peerKey
            && (d.id == "" && r.id != "" ==> e.id == r.id && e.token == r.token)
            && (d.id != "" || r.id == "" ==> e.id == d.id && e.token == d.token)
            && e.privateKey == d.privateKey && e.tunnel == d.tunnel && e.h2 == d.h2 && e.retried == d.retried
  {
  }

  /** Under MASQUE endpoints stay; otherwise an initial reply sets the primary one, and a later one adds a spare. */
  lemma EndpointsApplied(d: Device, r: Reply, initial: bool, host: string)
    requires r.peers && host == HostOf(r.address)
    ensures var e := Applied(d, r, initial).value;
            && (d.tunnel.Masque? ==> e.v4 == d.v4 && e.ports == d.ports && e.alt == d.alt)
            && (d.tunnel.Wireguard? && (initial || d.v4 == "") ==> e.v4 == host && e.ports == r.ports && e.alt == d.alt)
            && (d.tunnel.Wireguard? && !initial && d.v4 != "" ==> e.v4 == d.v4 && e.ports == d.ports)
            && (d.tunnel.Wireguard? && !initial && d.v4 != "" && (host == "" || host == d.v4) ==> e.alt == d.alt)
            && (d.tunnel.Wireguard? && !initial && d.v4 != "" && host != "" && host != d.v4 ==>
                  HostPorts(host, r.ports) in e.alt)
            && (d.tunnel.Wireguard? && !initial && d.v4 != "" && host !in {"", d.v4} && NoSpare(d.alt, host) ==>
                  e.alt == d.alt + [HostPorts(host, r.ports)])
  {
    if d.tunnel.Wireguard? && !initial && d.v4 != "" && host != "" && host != d.v4 {
      var h := HostPorts(host, r.ports);
      if Spare(d.alt, host) < |d.alt| {
        assert WithSpare(d.alt, h)[Spare(d.alt, host)] == h && d.alt[Spare(d.alt, host)] in d.alt;
      } else {
        assert WithSpare(d.alt, h) == d.alt + [h];
      }
    }
  }

  predicate NoSpare(alt: seq<HostPorts>, host: string) {
    forall h :: h in alt ==> h.host != host
  }

  class Record {
    var device: Device

    constructor (d: Device)
      ensures device == d
    {
      device := d;
    }

    /** Field after field; without a peer nothing is touched. */
    method Apply(r: Reply, initial: bool) returns (ok: bool)
      modifies this
      ensures ok == Applied(old(device), r, initial).Some?
      ensures device == if ok then Applied(old(device), r, initial).value else old(device)
    {
      if !r.peers {
        return false;
      }
      ghost var before := device;
      if r.id != "" && device.id == "" {
        device := device.(id := r.id, token := r.token);
      }
      device := device.(clientId := r.clientId);
      device := device.(addrV4 := r.addrV4);
      device := device.(addrV6 := r.addrV6);
      device := device.(peerKey := r.peerKey);
      var host := HostOf(r.address);
      if device.tunnel.Masque? {
        return true;
      }
      if initial || device.v4 == "" {
        device := device.(v4 := host);
        device := device.(ports := r.ports);
        return true;
      }
      if host == "" || host == device.v4 {
        return true;
      }
      var alt := device.alt;
      for i := 0 to |alt|
        invariant device == Identified(before, r) && forall k :: 0 <= k < i ==> alt[k].host != host
      {
        if alt[i].host == host {
          SpareIs(alt, host, i);
          device := device.(alt := alt[i := alt[i].(ports := r.ports)]);
          return true;
        }
      }
      SpareIs(alt, host, |alt|);
      device := device.(alt := alt + [HostPorts(host, r.ports)]);
      ok := true;
    }

    /**
      The switch: a missing MASQUE key is drawn first and stays even when the request then fails; after a good
      answer the tunnel changes even if the reply then proves empty.
      */
    method SwitchTunnel(t: Tunnel, drawn: Option<string>, answer: Answer) returns (r: Switching)
      modifies this
      ensures device == SwitchedBy(old(device), t, drawn, answer)
      ensures r == SwitchResult(old(device), t, drawn, answer)
    {
      if t.Masque? && NeedsKey(device) {
        if drawn.None? {
          return NoKey;
        }
        device := device.(h2 := Some(H2Key(drawn.value, "")));
      }
      match answer
      case Failed =>
        r := Unanswered;
      case Revoked =>
        r := Lost;
      case Good(reply) =>
        device := device.(tunnel := t);
        var ok := Apply(reply, false);
        if !ok {
          return NoPeers;
        }
        if t.Masque? {
          device := device.(h2 := Some(device.h2.value.(peerKey := device.peerKey)));
        }
        r := Done;
    }
  }

  lemma SpareIs(alt: seq<HostPorts>, host: string, i: nat)
    requires i <= |alt| && (i < |alt| ==> alt[i].host == host) && forall k :: 0 <= k < i ==> alt[k].host != host
    ensures Spare(alt, host) == i
  {
    assert Spare(alt, host) < |alt| ==> alt[Spare(alt, host)].host == host;
  }

  function Refreshed(d: Device, r: Reply): Device {
    if Applied(d, r, false).Some? then Applied(d, r, false).value else d
  }

  /** The server's answer to a request: the device known, revoked, or no usable answer. */
  datatype Answer = Good(r: Reply) | Revoked | Failed

  datatype Switching = Done | NoKey | Unanswered | Lost | NoPeers

  predicate NeedsKey(d: Device) {
    d.h2.None? || d.h2.value.privateKey == ""
  }

  /** The record with a MASQUE key where that tunnel asks for one. */
  function Keyed(d: Device, t: Tunnel, drawn: Option<string>): Device {
    if t.Masque? && NeedsKey(d) && drawn.Some? then d.(h2 := Some(H2Key(drawn.value, ""))) else d
  }

  function SwitchedBy(d: Device, t: Tunnel, drawn: Option<string>, answer: Answer): (e: Device)
    ensures answer.Good? && t.Masque? && e.tunnel.Masque? ==> e.h2.Some? || (NeedsKey(d) && drawn.None?)
  {
    if t.Masque? && NeedsKey(d) && drawn.None? then d
    else if answer.Good? then Switched(Keyed(d, t, drawn), t, answer.r)
    else Keyed(d, t, drawn)
  }

  function SwitchResult(d: Device, t: Tunnel, drawn: Option<string>, answer: Answer): Switching {
    if t.Masque? && NeedsKey(d) && drawn.None? then NoKey
    else if answer.Failed? then Unanswered
    else if answer.Revoked? then Lost
    else if !answer.r.peers then NoPeers
    else Done
  }

  function Switched(d: Device, t: Tunnel, r: Reply): Device
    requires t.Masque? ==> d.h2.Some?
  {
    var e := d.(tunnel := t);
    match Applied(e, r, false)
    case None => e
    case Some(f) => if t.Masque? then f.(h2 := Some(d.h2.value.(peerKey := f.peerKey))) else f
  }

  /** Every way a switch goes: which of the five, and what it leaves of the record. */
  lemma SwitchGoes(d: Device, t: Tunnel, drawn: Option<string>, answer: Answer)
    requires !(t.Masque? && NeedsKey(d) && drawn.None?)
    ensures var e, r := SwitchedBy(d, t, drawn, answer), SwitchResult(d, t, drawn, answer);
            && (answer.Failed? ==> r == Unanswered && e.tunnel == d.tunnel)
            && (answer.Revoked? ==> r == Lost && e.tunnel == d.tunnel)
            && (answer.Good? ==> e.tunnel == t && r == if answer.r.peers then Done else NoPeers)
            && (answer.Good? && answer.r.peers && t.Masque? ==> e.h2.Some? && e.h2.value.peerKey == answer.r.peerKey)
            && (t.Wireguard? ==> e.h2 == d.h2)
            && (t.Masque? && (d.h2.None? || d.h2.value.privateKey == "") ==>
                  e.h2.Some? && e.h2.value.privateKey == drawn.value)
            && (d.h2.Some? && d.h2.value.privateKey != "" ==>
                  e.h2.Some? && e.h2.value.privateKey == d.h2.value.privateKey)
  {
  }

  /** Without a key to draw a switch to MASQUE stops before it began. */
  lemma SwitchWithoutKey(d: Device, answer: Answer)
    requires d.h2.None? || d.h2.value.privateKey == ""
    ensures SwitchedBy(d, Masque, None, answer) == d && SwitchResult(d, Masque, None, answer) == NoKey
  {
  }

  // ------------------------------------------------------------------ any sequence of replies

  datatype Event = Refresh(r: Reply) | Switch(t: Tunnel, drawn: Option<string>, answer: Answer)

  function After(d: Device, es: seq<Event>): Device {
    if es == [] then d
    else
      var e := After(d, es[..|es| - 1]);
      match es[|es| - 1]
      case Refresh(r) => Refreshed(e, r)
      case Switch(t, drawn, answer) => SwitchedBy(e, t, drawn, answer)
  }

  /** Spares have names, no two the same and none that of the primary; without a primary there are none. */
  ghost predicate Sound(d: Device) {
    && (d.v4 == "" ==> d.alt == [])
    && (forall i :: 0 <= i < |d.alt| ==> d.alt[i].host != "" && d.alt[i].host != d.v4)
    && (forall i, j :: 0 <= i < j < |d.alt| ==> d.alt[i].host != d.alt[j].host)
  }

  /** What no later reply may change: keys, identity, and a primary endpoint once there is one. */
  predicate Kept(d: Device, e: Device) {
    && e.privateKey == d.privateKey && e.retried == d.retried
    && (d.id != "" ==> e.id == d.id && e.token == d.token)
    && (!NeedsKey(d) ==> e.h2.Some? && e.h2.value.privateKey == d.h2.value.privateKey)
    && (d.v4 != "" ==> e.v4 == d.v4 && e.ports == d.ports)
    && |d.alt| <= |e.alt| && forall i :: 0 <= i < |d.alt| ==> e.alt[i].host == d.alt[i].host
  }

  lemma AppliedSound(d: Device, r: Reply)
    requires Sound(d) && Applied(d, r, false).Some?
    ensures Sound(Applied(d, r, false).value) && Kept(d, Applied(d, r, false).value)
  {
    hide HostOf, WithSpare;
    var host := HostOf(r.address);
    if host != "" && host != d.v4 {
      SpareAdded(d.alt, HostPorts(host, r.ports));
    }
  }

  lemma SpareAdded(alt: seq<HostPorts>, h: HostPorts)
    requires forall i, j :: 0 <= i < j < |alt| ==> alt[i].host != alt[j].host
    ensures var more := WithSpare(alt, h);
            && |alt| <= |more| && (forall i :: 0 <= i < |alt| ==> more[i].host == alt[i].host)
            && (forall i :: |alt| <= i < |more| ==> more[i] == h)
            && (forall i, j :: 0 <= i < j < |more| ==> more[i].host != more[j].host)
            && h in more
  {
    hide Spare;
    var i := Spare(alt, h.host);
    assert WithSpare(alt, h)[i] == h;
  }

  /** Over every sequence of replies the primary stays, spares only gain, and none of them is named twice. */
  lemma {:induction false} RepliesKeep(d: Device, es: seq<Event>)
    requires Sound(d)
    ensures Sound(After(d, es)) && Kept(d, After(d, es))
    decreases |es|
  {
    hide Applied;
    if es != [] {
      RepliesKeep(d, es[..|es| - 1]);
      var e := After(d, es[..|es| - 1]);
      match es[|es| - 1]
      case Refresh(r) =>
        if Applied(e, r, false).Some? { AppliedSound(e, r); }
      case Switch(t, drawn, answer) =>
        var f := Keyed(e, t, drawn).(tunnel := t);
        if answer.Good? && Applied(f, answer.r, false).Some? { AppliedSound(f, answer.r); }
    }
  }

  // ------------------------------------------------------------------ registrations

  const BAD := "162.159.192."

  predicate BadEndpoint(host: string) {
    BAD <= host
  }

  function NewDevice(key: string): Device {
    Device(key, "", "", "", "", "", "", "", [], [], Wireguard, None, false)
  }

  /** What registering returns: a new record, or an error. */
  function Registered(key: string, reply: Option<Reply>): Option<Device> {
    if reply.None? then None
    else
      match Applied(NewDevice(key), reply.value, true)
      case None => None
      case Some(d) => if d.id == "" || d.token == "" then None else Some(d)
  }

  /** The blocked range and no other. */
  lemma BadRange(rest: string)
    ensures BadEndpoint("162.159.192." + rest)
    ensures !BadEndpoint("162.159.193." + rest) && !BadEndpoint("8.6.112.0")
  {
    assert ("162.159.193." + rest)[10] == '3';
    assert "8.6.112.0"[0] == '8' && |"8.6.112.0"| == 9;
  }

  /** A registered device is a fresh WireGuard record with the key drawn, filled from a reply with peer and identity. */
  lemma RegisteredIs(key: string, reply: Option<Reply>)
    ensures Registered(key, reply).Some? <==>
            reply.Some? && reply.value.peers && reply.value.id != "" && reply.value.token != ""
    ensures Registered(key, reply).Some? ==>
            var d, r := Registered(key, reply).value, reply.value;
            d == Device(key, r.id, r.token, r.clientId, r.addrV4, r.addrV6, r.peerKey, HostOf(r.address), r.ports, [],
                        Wireguard, None, false)
  {
  }

  datatype File = Missing | Unreadable | Stored(device: Device)

  /**
    The world during one call: the key drawn, the reply to registering when all of it worked, the check, the save,
    the licence key on file, empty without one, and whether the server accepts it.
    */
  datatype World = World(
    key: string, register: Option<Reply>, refresh: Answer, saves: bool, licence: string, accepts: bool)

  /** A request to bind a device to a licence key. */
  datatype Binding = Binding(id: string, token: string, licence: string)

  /** Why a device was registered. */
  datatype Reason = BadAddress | NoDevice

  /** The device file, the devices registered, the licence bindings asked for, and what the summary says of the last. */
  datatype Store = Store(file: File, made: seq<Reason>, asked: seq<Binding>, summary: Option<bool>)

  predicate HasDevice(f: File) {
    f.Stored? && f.device.id != ""
  }

  function Saved(s: Store, d: Device, w: World): Store {
    if w.saves then s.(file := Stored(d)) else s
  }

  /** A registered device, saved, is bound to the licence on file; when that is refused the device stays. */
  function Renewed(s: Store, why: Reason, d: Device, w: World): Store {
    var t := s.(made := s.made + [why]);
    if w.saves then Carried(t.(file := Stored(d)), d, w) else t
  }

  function Carried(s: Store, d: Device, w: World): Store {
    if w.licence == "" then s
    else s.(asked := s.asked + [Binding(d.id, d.token, w.licence)], summary := Some(w.accepts))
  }

  predicate Repairs(s: Store, w: World) {
    HasDevice(s.file) && BadEndpoint(s.file.device.v4) && !s.file.device.retried && Registered(w.key, w.register).Some?
  }

  /** A device on a dead address is registered anew, once; the new record remembers it. */
  function Repaired(s: Store, w: World): Store {
    if !Repairs(s, w) then s
    else Renewed(s, BadAddress, Registered(w.key, w.register).value.(retried := true), w)
  }

  /** A device that is there and alive; otherwise a new one. */
  function Ensured(s: Store, w: World): Store {
    if HasDevice(s.file) && BadEndpoint(s.file.device.v4) && !s.file.device.retried then Repaired(s, w)
    else if HasDevice(s.file) && w.refresh.Good? then
      if Applied(s.file.device, w.refresh.r, false).Some? then Saved(s, Refreshed(s.file.device, w.refresh.r), w) else s
    else if HasDevice(s.file) && w.refresh.Failed? then s
    else if Registered(w.key, w.register).None? then s
    else Renewed(s, NoDevice, Registered(w.key, w.register).value, w)
  }

  /** What a call hands back: a device, whether it is a new one, and whether all went well. */
  datatype Result = Result(device: Option<Device>, created: bool, ok: bool)

  function RepairResult(s: Store, w: World): Result {
    if !HasDevice(s.file) then Result(None, false, !s.file.Unreadable?)
    else if !BadEndpoint(s.file.device.v4) || s.file.device.retried then Result(Some(s.file.device), false, true)
    else
      match Registered(w.key, w.register)
      case None => Result(Some(s.file.device), false, false)
      case Some(d) => Result(Some(d.(retried := true)), true, w.saves)
  }

  function EnsureResult(s: Store, w: World): Result {
    if HasDevice(s.file) && BadEndpoint(s.file.device.v4) && !s.file.device.retried then
      if RepairResult(s, w).ok then RepairResult(s, w) else Result(None, false, false)
    else if HasDevice(s.file) && w.refresh.Good? then
      if Applied(s.file.device, w.refresh.r, false).Some?
      then Result(Some(Refreshed(s.file.device, w.refresh.r)), false, w.saves) else Result(None, false, false)
    else if HasDevice(s.file) && w.refresh.Failed? then Result(None, false, false)
    else
      match Registered(w.key, w.register)
      case None => Result(None, false, false)
      case Some(d) => Result(Some(d), true, w.saves)
  }

  datatype Call = Repair(w: World) | Ensure(w: World)

  function Called(s: Store, c: Call): Store {
    match c
    case Repair(w) => Repaired(s, w)
    case Ensure(w) => Ensured(s, w)
  }

  function CalledAll(s: Store, cs: seq<Call>): Store {
    if cs == [] then s else Called(CalledAll(s, cs[..|cs| - 1]), cs[|cs| - 1])
  }

  /** Between any two bad-address registrations there is one for a missing or revoked device. */
  ghost predicate OncePerDevice(made: seq<Reason>) {
    forall i, j :: 0 <= i < j < |made| && made[i].BadAddress? && made[j].BadAddress? ==>
      exists k :: i < k < j && made[k].NoDevice?
  }

  /** The record remembers a bad-address registration as long as no other registration followed. */
  ghost predicate Remembers(s: Store) {
    OncePerDevice(s.made)
    && (s.made != [] && s.made[|s.made| - 1].BadAddress? ==> s.file.Stored? && s.file.device.retried)
  }

  /** One call registers at most once, for a bad address only on a record that does not remember one. */
  lemma CallMakes(s: Store, c: Call)
    requires c.w.saves
    ensures var t := Called(s, c);
            || (t.made == s.made
                && (s.file.Stored? ==> t.file.Stored? && t.file.device.retried == s.file.device.retried))
            || t.made == s.made + [NoDevice]
            || (t.made == s.made + [BadAddress]
                && s.file.Stored? && !s.file.device.retried && t.file.Stored? && t.file.device.retried)
  {
    hide Registered, BadEndpoint, HostOf, WithSpare;
  }

  lemma CallRemembers(s: Store, c: Call)
    requires Remembers(s) && c.w.saves
    ensures Remembers(Called(s, c))
  {
    CallMakes(s, c);
    hide Called, OncePerDevice;
    var t := Called(s, c);
    if |t.made| > |s.made| {
      GrowsOnce(s.made, t.made[|s.made|]);
    }
  }

  lemma GrowsOnce(made: seq<Reason>, r: Reason)
    requires OncePerDevice(made) && (r.BadAddress? ==> made == [] || made[|made| - 1].NoDevice?)
    ensures OncePerDevice(made + [r])
  {
    var all := made + [r];
    forall i, j | 0 <= i < j < |all| && all[i].BadAddress? && all[j].BadAddress?
      ensures exists k :: i < k < j && all[k].NoDevice?
    {
      if j < |made| {
        var k :| i < k < j && made[k].NoDevice?;
        assert all[k].NoDevice?;
      } else {
        assert all[|made| - 1].NoDevice?;
      }
    }
  }

  /** In every run of calls whose saves work, a bad address costs at most one registration per device. */
  lemma {:induction false} NeverBurnsTwice(s: Store, cs: seq<Call>)
    requires s.made == [] && forall c :: c in cs ==> c.w.saves
    ensures Remembers(CalledAll(s, cs))
    decreases |cs|
  {
    hide Called;
    if cs != [] {
      var front, last := cs[..|cs| - 1], cs[|cs| - 1];
      assert last in cs && forall c :: c in front ==> c in cs;
      NeverBurnsTwice(s, front);
      CallRemembers(CalledAll(s, front), last);
    }
  }

  /** The last binding asked for is that of the device on file. */
  predicate BoundOnFile(s: Store, licence: string) {
    s.asked != [] ==>
      && HasDevice(s.file)
      && s.asked[|s.asked| - 1] == Binding(s.file.device.id, s.file.device.token, licence)
  }

  lemma CallBinds(s: Store, c: Call)
    requires BoundOnFile(s, c.w.licence) && c.w.licence != ""
    ensures BoundOnFile(Called(s, c), c.w.licence)
    ensures |s.asked| <= |Called(s, c).asked| && |s.made| <= |Called(s, c).made|
    ensures |Called(s, c).asked| - |s.asked| <= |Called(s, c).made| - |s.made|
    ensures c.w.saves ==> |Called(s, c).asked| - |s.asked| == |Called(s, c).made| - |s.made|
  {
    hide BadEndpoint, HostOf, WithSpare;
  }

  /**
    A licence key once saved follows the device: over any run of calls every registration that is saved asks for its
    binding, whether the server accepts or not, and the device on file is the one last asked for.
    */
  lemma {:induction false} LicenceFollows(s: Store, cs: seq<Call>, licence: string)
    requires s.made == [] && s.asked == [] && licence != "" && forall c :: c in cs ==> c.w.licence == licence
    ensures BoundOnFile(CalledAll(s, cs), licence) && |CalledAll(s, cs).asked| <= |CalledAll(s, cs).made|
    ensures (forall c :: c in cs ==> c.w.saves) ==> |CalledAll(s, cs).asked| == |CalledAll(s, cs).made|
    decreases |cs|
  {
    hide Called, BoundOnFile;
    if cs != [] {
      var front, last := cs[..|cs| - 1], cs[|cs| - 1];
      assert last in cs && forall c :: c in front ==> c in cs;
      LicenceFollows(s, front, licence);
      CallBinds(CalledAll(s, front), last);
    } else {
      assert BoundOnFile(s, licence) by { NothingAsked(s, licence); }
    }
  }

  lemma NothingAsked(s: Store, licence: string)
    requires s.asked == []
    ensures BoundOnFile(s, licence)
  {
  }

  /** A call registers for a bad address exactly under the guard; whether it can repeat is decided by the save. */
  lemma RepeatsExactlyWhenUnsaved(s: Store, w: World, again: World)
    requires Repairs(s, w) && Registered(again.key, again.register).Some?
    ensures Repairs(Repaired(s, w), again) <==> !w.saves
  {
    hide Registered, BadEndpoint;
  }

  /** A device on file that is alive, or whose check failed for another reason, is never replaced. */
  lemma LiveDeviceKept(s: Store, w: World)
    requires HasDevice(s.file) && !w.refresh.Revoked? && (!BadEndpoint(s.file.device.v4) || s.file.device.retried)
    ensures Ensured(s, w).made == s.made && HasDevice(Ensured(s, w).file)
    ensures Sound(s.file.device) ==> Kept(s.file.device, Ensured(s, w).file.device)
  {
    hide Registered, BadEndpoint;
    if w.refresh.Good? && Applied(s.file.device, w.refresh.r, false).Some? && Sound(s.file.device) {
      AppliedSound(s.file.device, w.refresh.r);
    }
  }

  /**
    A device is registered as missing exactly when none can be read from the file, whatever the reason, or the one
    there is revoked and not up for repair; and registering then works.
    */
  lemma RegistersExactlyWhen(s: Store, w: World)
    ensures Ensured(s, w).made == s.made + [NoDevice] <==>
            (!HasDevice(s.file)
             || (w.refresh.Revoked? && !(BadEndpoint(s.file.device.v4) && !s.file.device.retried)))
            && Registered(w.key, w.register).Some?
  {
    hide Registered, BadEndpoint, Applied;
    if HasDevice(s.file) && BadEndpoint(s.file.device.v4) && !s.file.device.retried {
      assert BadAddress != NoDevice;
      assert (s.made + [BadAddress])[|s.made|] != (s.made + [NoDevice])[|s.made|];
    }
  }

  /** So a file that is there but cannot be read costs a registration, which the comment on Ensure rules out. */
  lemma UnreadableRegisters(s: Store, w: World)
    requires s.file.Unreadable? && Registered(w.key, w.register).Some?
    ensures Ensured(s, w).made == s.made + [NoDevice]
  {
    RegistersExactlyWhen(s, w);
  }

  /** A live device that is not up for repair is refreshed in place, and the outcome is that of the save. */
  lemma LiveDeviceRefreshed(s: Store, w: World)
    requires HasDevice(s.file) && w.refresh.Good? && (!BadEndpoint(s.file.device.v4) || s.file.device.retried)
    ensures w.refresh.r.peers && w.saves ==>
            && Ensured(s, w).file == Stored(Applied(s.file.device, w.refresh.r, false).value)
            && EnsureResult(s, w) == Result(Some(Applied(s.file.device, w.refresh.r, false).value), false, true)
    ensures !w.refresh.r.peers ==> Ensured(s, w) == s && EnsureResult(s, w) == Result(None, false, false)
    ensures !w.saves ==> Ensured(s, w) == s && !EnsureResult(s, w).ok
  {
    hide Applied, BadEndpoint;
    FieldsApplied(s.file.device, w.refresh.r, false);
  }

  /** Ensuring fails exactly when the check failed for another reason, had no peer, could not register, or not save. */
  lemma FailsExactlyWhen(s: Store, w: World)
    ensures !EnsureResult(s, w).ok <==>
            || !w.saves
            || (Registered(w.key, w.register).None?
                && (!HasDevice(s.file) || w.refresh.Revoked?
                    || (BadEndpoint(s.file.device.v4) && !s.file.device.retried)))
            || (HasDevice(s.file) && (!BadEndpoint(s.file.device.v4) || s.file.device.retried)
                && (w.refresh.Failed? || (w.refresh.Good? && !w.refresh.r.peers)))
  {
    hide Applied, BadEndpoint, Registered;
    if HasDevice(s.file) && w.refresh.Good? {
      FieldsApplied(s.file.device, w.refresh.r, false);
    }
  }

  /**
    A device counts as created when it was registered as missing, or in a repair that was saved; one is handed back
    when it was created, or refreshed.
    */
  lemma CreatedExactlyWhen(s: Store, w: World)
    ensures EnsureResult(s, w).created <==>
            Ensured(s, w).made == s.made + [NoDevice] || (w.saves && Ensured(s, w).made == s.made + [BadAddress])
    ensures EnsureResult(s, w).device.Some? <==>
            || EnsureResult(s, w).created
            || (HasDevice(s.file) && (!BadEndpoint(s.file.device.v4) || s.file.device.retried)
                && w.refresh.Good? && w.refresh.r.peers)
  {
    hide Registered, BadEndpoint, Applied;
    if HasDevice(s.file) && w.refresh.Good? {
      FieldsApplied(s.file.device, w.refresh.r, false);
    }
    assert (s.made + [BadAddress])[|s.made|] != (s.made + [NoDevice])[|s.made|];
    assert |s.made + [NoDevice]| > |s.made|;
  }

  /** A repair on its own: nothing to do without a device on a dead address, an error only for an unreadable file. */
  lemma RepairGoes(s: Store, w: World)
    ensures !HasDevice(s.file) ==> Repaired(s, w) == s && RepairResult(s, w) == Result(None, false, !s.file.Unreadable?)
    ensures HasDevice(s.file) && (!BadEndpoint(s.file.device.v4) || s.file.device.retried) ==>
            Repaired(s, w) == s && RepairResult(s, w) == Result(Some(s.file.device), false, true)
    ensures HasDevice(s.file) && BadEndpoint(s.file.device.v4) && !s.file.device.retried
            && Registered(w.key, w.register).None? ==>
            Repaired(s, w) == s && RepairResult(s, w) == Result(Some(s.file.device), false, false)
    ensures HasDevice(s.file) && BadEndpoint(s.file.device.v4) && !s.file.device.retried
            && Registered(w.key, w.register).Some? ==>
            var d := Registered(w.key, w.register).value.(retried := true);
            && Repaired(s, w).made == s.made + [BadAddress]
            && Repaired(s, w).file == (if w.saves then Stored(d) else s.file)
            && RepairResult(s, w) == Result(Some(d), true, w.saves)
  {
    hide Registered, BadEndpoint;
  }

  /** A call that went well hands back exactly the device that is on file afterwards. */
  lemma ResultIsStored(s: Store, w: World)
    ensures EnsureResult(s, w).ok ==>
            EnsureResult(s, w).device.Some? && Ensured(s, w).file == Stored(EnsureResult(s, w).device.value)
    ensures EnsureResult(s, w).ok ==> (EnsureResult(s, w).created <==> Ensured(s, w).made != s.made)
  {
    hide Registered, BadEndpoint, Applied;
    assert (s.made + [NoDevice])[..|s.made|] == s.made && (s.made + [BadAddress])[..|s.made|] == s.made;
  }

  // ------------------------------------------------------------------ the file

  class DeviceFile {
    var file: File
    var summary: Option<bool>
    ghost var made: seq<Reason>
    ghost var asked: seq<Binding>

    ghost function Now(): Store
      reads this
    {
      Store(file, made, asked, summary)
    }

    constructor (file: File)
      ensures Now() == Store(file, [], [], None)
    {
      this.file, summary, made, asked := file, None, [], [];
    }

    method Register(key: string, reply: Option<Reply>) returns (d: Option<Device>)
      ensures d == Registered(key, reply)
    {
      if reply.None? {
        return None;
      }
      var record := new Record(NewDevice(key));
      var ok := record.Apply(reply.value, true);
      if !ok || record.device.id == "" || record.device.token == "" {
        return None;
      }
      d := Some(record.device);
    }

    /** A refusal is no failure: it is left in the summary. */
    method CarryLicence(d: Device, w: World)
      modifies this`summary, this`asked
      ensures Now() == Carried(old(Now()), d, w)
    {
      if w.licence == "" {
        return;
      }
      asked := asked + [Binding(d.id, d.token, w.licence)];
      summary := Some(w.accepts);
    }

    method RepairBadEndpoint(w: World) returns (r: Result)
      modifies this
      ensures Now() == Repaired(old(Now()), w) && r == RepairResult(old(Now()), w)
    {
      hide Registered;
      if !file.Stored? || file.device.id == "" {
        return Result(None, false, !file.Unreadable?);
      }
      if !BadEndpoint(file.device.v4) || file.device.retried {
        return Result(Some(file.device), false, true);
      }
      var d := Register(w.key, w.register);
      if d.None? {
        return Result(Some(file.device), false, false);
      }
      made := made + [BadAddress];
      var renewed := d.value.(retried := true);
      if w.saves {
        file := Stored(renewed);
        CarryLicence(renewed, w);
      }
      r := Result(Some(renewed), true, w.saves);
    }

    method EnsureDevice(w: World) returns (r: Result)
      modifies this
      ensures Now() == Ensured(old(Now()), w) && r == EnsureResult(old(Now()), w)
    {
      hide Registered, Applied;
      if file.Stored? && file.device.id != "" {
        var d := file.device;
        var repair := RepairBadEndpoint(w);
        if !repair.ok {
          return Result(None, false, false);
        }
        if repair.created {
          return repair;
        }
        if w.refresh.Good? {
          var record := new Record(d);
          var ok := record.Apply(w.refresh.r, false);
          if !ok {
            return Result(None, false, false);
          }
          if w.saves {
            file := Stored(record.device);
          }
          return Result(Some(record.device), false, w.saves);
        }
        if w.refresh.Failed? {
          return Result(None, false, false);
        }
      }
      var d := Register(w.key, w.register);
      if d.None? {
        return Result(None, false, false);
      }
      made := made + [NoDevice];
      if w.saves {
        file := Stored(d.value);
        CarryLicence(d.value, w);
      }
      r := Result(Some(d.value), true, w.saves);
    }
  }
}
