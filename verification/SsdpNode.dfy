/** One SSDP node: reading its socket, answering searches, and what two nodes learn from each other's packets. */
module SsdpNode {
  import opened SsdpText
  import opened SsdpPrinter
  import opened NeighborTable
  import SsdpParser
  import NeighborList

  datatype Interface = Interface(ip: string, addr: bv32, netmask: bv32)

  datatype Reply = Silence | Answer(text: string)

  // ----- What reading one packet means -----

  /** The neighbour a parsed packet describes. */
  function NeighborOf(p: Packet, now: int): Neighbor {
    Neighbor(CStr(p.usn), CStr(p.location), CStr(p.smId), CStr(p.deviceType), now)
  }

  /** The packet passes the parser and asks for, or announces, our own search target. */
  predicate Matches(data: string, now: int, searchTarget: string) {
    Parse(data).Accepted? && now >= 0 && CStr(Parse(data).packet.st) == searchTarget
  }

  predicate IsSearch(data: string)
    requires Parse(data).Accepted?
  {
    CStr(Parse(data).packet.kind) == MSEARCH
  }

  function AfterRead(l: seq<Neighbor>, data: string, now: int, searchTarget: string): seq<Neighbor> {
    if Matches(data, now, searchTarget) && !IsSearch(data) then Add(l, NeighborOf(Parse(data).packet, now)) else l
  }

  predicate SameLan(i: Interface, address: bv32) {
    i.addr & i.netmask == address & i.netmask
  }

  /** The first interface whose network holds the address, or the number of interfaces. */
  function InLan(ifs: seq<Interface>, address: bv32): (i: nat)
    ensures i <= |ifs|
    ensures i < |ifs| ==> SameLan(ifs[i], address)
    ensures forall k :: 0 <= k < i ==> !SameLan(ifs[k], address)
  {
    if ifs == [] || SameLan(ifs[0], address) then 0 else 1 + InLan(ifs[1..], address)
  }

  function ReplyTo(data: string, now: int, h: Header, ifs: seq<Interface>, address: bv32): Reply {
    if Matches(data, now, h.searchTarget) && IsSearch(data) && InLan(ifs, address) < |ifs|
    then Answer(Response(h, ifs[InLan(ifs, address)].ip)) else Silence
  }

  /** Parses a datagram into a fresh packet and reads its fields as C strings. */
  method Receive(data: string, now: int) returns (ok: bool, kind: string, st: string, n: Neighbor)
    requires |data| < BUFFER_LEN
    ensures ok <==> Parse(data).Accepted? && now >= 0
    ensures ok ==> var p := Parse(data).packet; kind == CStr(p.kind) && st == CStr(p.st) && n == NeighborOf(p, now)
  {
    var packet := new SsdpParser.LssdpPacket();
    var parsed := SsdpParser.PacketParser(data, now, packet);
    ok := parsed == 0;
    kind, st := CStr(packet.kind[..]), CStr(packet.st[..]);
    n := Neighbor(CStr(packet.usn[..]), CStr(packet.location[..]), CStr(packet.smId[..]),
                  CStr(packet.deviceType[..]), packet.updateTime);
  }

  class LssdpCtx {
    var sock: int
    var port: nat
    var interfaces: seq<Interface>
    var header: Header
    var packetsReceived: nat     // calls of packet_received_callback
    const neighbors: NeighborList.NeighborRegister

    constructor (sock: int, port: nat, interfaces: seq<Interface>, header: Header,
                 neighbors: NeighborList.NeighborRegister)
      ensures this.sock == sock && this.port == port && this.interfaces == interfaces && this.header == header
      ensures this.neighbors == neighbors && packetsReceived == 0
    {
      this.sock, this.port, this.interfaces, this.header := sock, port, interfaces, header;
      this.neighbors := neighbors;
      packetsReceived := 0;
    }

    /** find_interface_in_LAN */
    method FindInterfaceInLan(address: bv32) returns (i: nat)
      ensures i == InLan(interfaces, address)
    {
      i := 0;
      while i < |interfaces| && !SameLan(interfaces[i], address)
        invariant i <= |interfaces|
        invariant forall k :: 0 <= k < i ==> !SameLan(interfaces[k], address)
      {
        i := i + 1;
      }
    }

    /** lssdp_socket_read of one datagram; now is the clock, negative on failure. */
    method SocketRead(data: string, address: bv32, now: int) returns (r: int, reply: Reply)
      requires neighbors.Valid() && |data| < BUFFER_LEN
      modifies this`packetsReceived, neighbors`head, neighbors`nodes, neighbors`live, neighbors`entries,
               neighbors`notified, neighbors.live
      ensures neighbors.Valid() && fresh(neighbors.live - old(neighbors.live))
      ensures r == if sock <= 0 || port == 0 then -1 else 0
      ensures r == 0 ==> neighbors.entries == AfterRead(old(neighbors.entries), data, now, header.searchTarget)
      ensures r == 0 ==> reply == ReplyTo(data, now, header, interfaces, address)
      ensures r == 0 ==> packetsReceived == old(packetsReceived) + 1
      ensures r != 0 ==> neighbors.entries == old(neighbors.entries) && reply == Silence
      ensures neighbors.notified == old(neighbors.notified)
        + if neighbors.hasCallback && Changed(old(neighbors.entries), neighbors.entries) then 1 else 0
    {
      reply := Silence;
      if sock <= 0 || port == 0 {
        return -1, reply;
      }
      reply := Dispatch(data, address, now);
      packetsReceived := packetsReceived + 1;
      return 0, reply;
    }

    /** Parse, compare the search target, then answer a search or remember the sender. */
    method Dispatch(data: string, address: bv32, now: int) returns (reply: Reply)
      requires neighbors.Valid() && |data| < BUFFER_LEN
      modifies neighbors`head, neighbors`nodes, neighbors`live, neighbors`entries, neighbors`notified, neighbors.live
      ensures neighbors.Valid() && fresh(neighbors.live - old(neighbors.live))
      ensures neighbors.entries == AfterRead(old(neighbors.entries), data, now, header.searchTarget)
      ensures reply == ReplyTo(data, now, header, interfaces, address)
      ensures neighbors.notified == old(neighbors.notified)
        + if neighbors.hasCallback && Changed(old(neighbors.entries), neighbors.entries) then 1 else 0
    {
      reply := Silence;
      var ok, kind, st, n := Receive(data, now);
      if !ok || st != header.searchTarget {
        return;
      }
      if kind == MSEARCH {
        var i := FindInterfaceInLan(address);
        if i < |interfaces| {
          reply := Answer(Response(header, interfaces[i].ip));
        }
        return;
      }
      neighbors.Add(n);
    }
  }

  // ----- What two nodes learn from each other -----

  /** The sender, as a receiver should come to know it. */
  function Peer(h: Header, ip: string, now: int): Neighbor {
    var a := Announced(NOTIFY, h, ip);
    Neighbor(a.usn, a.location, a.smId, a.deviceType, now)
  }

  /** A header and interface address that the printers carry faithfully, on a port of 16 bits. */
  predicate Sendable(h: Header, ip: string, port: nat) {
    ValidHeader(h) && Fits(ip, 16) && port <= 65535 && OneLineEach(h, ip)
  }

  lemma AnnouncementRead(l: seq<Neighbor>, data: string, kind: string, h: Header, ip: string, now: int, st: string)
    requires Parse(data).Accepted? && View(Parse(data).packet) == Announced(kind, h, ip)
    requires kind != MSEARCH && now >= 0
    ensures AfterRead(l, data, now, st) == if Trim(h.searchTarget) == st then Add(l, Peer(h, ip, now)) else l
  {
    var p := Parse(data).packet;
    assert CStr(p.kind) == kind && CStr(p.st) == Trim(h.searchTarget);
    assert NeighborOf(p, now) == Peer(h, ip, now);
  }

  /** A NOTIFY with our search target puts its sender in the list; one with another leaves the list alone. */
  lemma NotifyRead(l: seq<Neighbor>, h: Header, ip: string, port: nat, now: int, st: string)
    requires Sendable(h, ip, port) && now >= 0
    ensures AfterRead(l, Notify(h, ip, port), now, st)
         == if Trim(h.searchTarget) == st then Add(l, Peer(h, ip, now)) else l
  {
    NotifyRoundTrip(h, ip, port);
    assert NOTIFY[0] != MSEARCH[0];
    AnnouncementRead(l, Notify(h, ip, port), NOTIFY, h, ip, now, st);
  }

  lemma ResponseRead(l: seq<Neighbor>, h: Header, ip: string, now: int, st: string)
    requires Sendable(h, ip, 0) && now >= 0
    ensures AfterRead(l, Response(h, ip), now, st)
         == if Trim(h.searchTarget) == st then Add(l, Peer(h, ip, now)) else l
  {
    ResponseRoundTrip(h, ip);
    assert RESPONSE[0] != MSEARCH[0];
    AnnouncementRead(l, Response(h, ip), RESPONSE, h, ip, now, st);
  }

  /** A search never changes the searched node's list; it is answered if the target is ours and a LAN is shared. */
  lemma MsearchRead(l: seq<Neighbor>, h: Header, port: nat, now: int, own: Header, ifs: seq<Interface>, address: bv32)
    requires ValidHeader(h) && port <= 65535 && !HasCrLf(h.searchTarget) && now >= 0
    ensures AfterRead(l, Msearch(h, port), now, own.searchTarget) == l
    ensures ReplyTo(Msearch(h, port), now, own, ifs, address)
         == if Trim(h.searchTarget) == own.searchTarget && InLan(ifs, address) < |ifs|
            then Answer(Response(own, ifs[InLan(ifs, address)].ip)) else Silence
  {
    MsearchRoundTrip(h, port);
    var p := Parse(Msearch(h, port)).packet;
    assert CStr(p.kind) == MSEARCH && CStr(p.st) == Trim(h.searchTarget);
  }

  /** A search is answered, with the address of the first interface that shares the sender's network, exactly when it
      names the node's own search target. */
  lemma SearchAnswered(h: Header, port: nat, now: int, own: Header, ifs: seq<Interface>, address: bv32, k: nat)
    requires ValidHeader(h) && port <= 65535 && !HasCrLf(h.searchTarget) && now >= 0
    requires k < |ifs| && SameLan(ifs[k], address)
    requires forall j :: 0 <= j < k ==> !SameLan(ifs[j], address)
    ensures ReplyTo(Msearch(h, port), now, own, ifs, address)
         == if Trim(h.searchTarget) == own.searchTarget then Answer(Response(own, ifs[k].ip)) else Silence
  {
    MsearchRead([], h, port, now, own, ifs, address);
    InLanIs(ifs, address, k);
  }

  /** Where no interface does, it is not answered at all. */
  lemma SearchUnanswered(h: Header, port: nat, now: int, own: Header, ifs: seq<Interface>, address: bv32)
    requires ValidHeader(h) && port <= 65535 && !HasCrLf(h.searchTarget) && now >= 0
    requires forall j :: 0 <= j < |ifs| ==> !SameLan(ifs[j], address)
    ensures ReplyTo(Msearch(h, port), now, own, ifs, address) == Silence
  {
    MsearchRead([], h, port, now, own, ifs, address);
    InLanIs(ifs, address, |ifs|);
  }

  lemma InLanIs(ifs: seq<Interface>, address: bv32, k: nat)
    requires k <= |ifs| && (k < |ifs| ==> SameLan(ifs[k], address))
    requires forall j :: 0 <= j < k ==> !SameLan(ifs[j], address)
    ensures InLan(ifs, address) == k
  {
    var i := InLan(ifs, address);
    assert i < |ifs| ==> SameLan(ifs[i], address);
  }

  /** 192.168.0.5 with mask 255.255.255.0 shares a network with 192.168.0.99 and not with 192.168.1.99. */
  lemma MaskedAddresses()
    ensures SameLan(Interface("192.168.0.5", 0xc0a8_0005, 0xffff_ff00), 0xc0a8_0063)
    ensures !SameLan(Interface("192.168.0.5", 0xc0a8_0005, 0xffff_ff00), 0xc0a8_0163)
  {}

  /** Every address shares a network with an interface whose mask is empty. */
  lemma EmptyMask(ip: string, addr: bv32, address: bv32)
    ensures SameLan(Interface(ip, addr, 0), address)
  {}

  /** The entry at the peer's location, and the rest of the list, after the peer was added. */
  lemma AddedPeer(l: seq<Neighbor>, n: Neighbor)
    requires Distinct(l)
    ensures var r := Add(l, n);
      && Distinct(r) && At(r, n.location) == Present(n) && AsMap(r) == AsMap(l).Put(n.location, n)
      && forall other :: other != n.location ==> At(r, other) == At(l, other)
  {
    var r := Add(l, n);
    AddRefinesPut(l, n);
    AddMembers(l, n);
    AtMember(r, n.location);
    forall other | other != n.location ensures At(r, other) == At(l, other) {
      AtMember(l, other);
      AtMember(r, other);
      if At(l, other).Present? {
        assert At(l, other).n in r;
      }
    }
  }

  /** The entry of a peer that announces itself at a location, field by field; the location is cut to its 255 bytes. */
  predicate Listed(r: seq<Neighbor>, h: Header, location: string, now: int) {
    var at := if |Trim(location)| <= 255 then Trim(location) else Trim(location)[..255];
    At(r, at) == Present(Neighbor(Trim(h.usn), at, Trim(h.smId), Trim(h.deviceType), now))
  }

  /** The location is made with the peer's domain, and with its interface's address only where it has none. */
  lemma PeerListed(r: seq<Neighbor>, h: Header, ip: string, now: int)
    requires At(r, Peer(h, ip, now).location) == Present(Peer(h, ip, now))
    ensures h.domain != "" ==> Listed(r, h, h.prefix + h.domain + h.suffix, now)
    ensures h.domain == "" ==> Listed(r, h, h.prefix + ip + h.suffix, now)
  {}

  /** Discovery by announcement: after one NOTIFY the list holds one entry for its sender, with the sender's fields
      and the current time, and every other entry is as it was. */
  lemma NotifyDiscovers(l: seq<Neighbor>, h: Header, ip: string, port: nat, now: int)
    requires Sendable(h, ip, port) && now >= 0 && Distinct(l)
    ensures |Notify(h, ip, port)| < BUFFER_LEN
    ensures var n, r := Peer(h, ip, now), AfterRead(l, Notify(h, ip, port), now, Trim(h.searchTarget));
      && Distinct(r) && At(r, n.location) == Present(n) && AsMap(r) == AsMap(l).Put(n.location, n)
      && forall other :: other != n.location ==> At(r, other) == At(l, other)
    ensures var r := AfterRead(l, Notify(h, ip, port), now, Trim(h.searchTarget));
      && (h.domain != "" ==> Listed(r, h, h.prefix + h.domain + h.suffix, now))
      && (h.domain == "" ==> Listed(r, h, h.prefix + ip + h.suffix, now))
  {
    NotifyRead(l, h, ip, port, now, Trim(h.searchTarget));
    AddedPeer(l, Peer(h, ip, now));
    PeerListed(AfterRead(l, Notify(h, ip, port), now, Trim(h.searchTarget)), h, ip, now);
  }

  /** Discovery by search: a searches, b hears it on a shared LAN and answers, and a's list then holds b. */
  lemma SearchDiscovers(a: Header, portA: nat, addressA: bv32, b: Header, ifsB: seq<Interface>, heardAt: int,
                        l: seq<Neighbor>, now: int)
    requires ValidHeader(a) && portA <= 65535 && !HasCrLf(a.searchTarget)
    requires a.searchTarget == b.searchTarget && Trimmed(a.searchTarget)
    requires InLan(ifsB, addressA) < |ifsB| && Sendable(b, ifsB[InLan(ifsB, addressA)].ip, 0)
    requires heardAt >= 0 && now >= 0 && Distinct(l)
    ensures var reply := ReplyTo(Msearch(a, portA), heardAt, b, ifsB, addressA);
      && reply.Answer? && |reply.text| < BUFFER_LEN
      && var n, r := Peer(b, ifsB[InLan(ifsB, addressA)].ip, now), AfterRead(l, reply.text, now, a.searchTarget);
         && Distinct(r) && At(r, n.location) == Present(n)
         && (forall other :: other != n.location ==> At(r, other) == At(l, other))
         && (b.domain != "" ==> Listed(r, b, b.prefix + b.domain + b.suffix, now))
         && (b.domain == "" ==> Listed(r, b, b.prefix + ifsB[InLan(ifsB, addressA)].ip + b.suffix, now))
  {
    var ip := ifsB[InLan(ifsB, addressA)].ip;
    TrimFixed(a.searchTarget);
    MsearchRead(l, a, portA, heardAt, b, ifsB, addressA);
    ResponseRead(l, b, ip, now, a.searchTarget);
    AddedPeer(l, Peer(b, ip, now));
    PeerListed(AfterRead(l, Response(b, ip), now, a.searchTarget), b, ip, now);
  }
}
