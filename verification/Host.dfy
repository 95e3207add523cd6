/** One host: its interface, its ARP cache, its control blocks, and the IPv4, UDP and ICMP layers
    over them. The receiving side is also given as a function on values, so that what one host
    sends can be followed to what another one queues. */
module Host {
  import opened Wrappers
  import opened Bytes
  import opened IpUtils
  import opened UdpPcb
  import EtherFrame
  import Ipv4Data
  import UdpData
  import Icmp
  import ArpCache
  import Arp
  import ArpNetwork
  import UdpPcbManager

  const ICMP_TYPE: byte := 0x01
  const IP_ADDR_BROADCAST: uint32 := 0xFFFF_FFFF

  // ---------------------------------------------------------------- receiving, on values

  /** A datagram whose header and checksum words lie inside the buffer. */
  predicate UdpReadable(p: bytes) {
    UdpData.HEADER_SIZE <= |p| <= 0xFFFF && |p| % 2 == 0
  }

  /** ... and whose bytes fit the length it claims. */
  predicate UdpFits(p: bytes) {
    UdpReadable(p) && ReadUint16(p, UdpData.LENGTH) >= |p| - UdpData.HEADER_SIZE
  }

  /** What the handler needs: the length matters only for a datagram that is queued. */
  predicate UdpSized(t: Table, src: uint32, dst: uint32, p: bytes) {
    && UdpReadable(p)
    && (UdpData.UdpChecksum(src, dst, p) == 0 && Select(t, dst, ReadUint16(p, UdpData.DST_PORT)).Some? ==> UdpFits(p))
  }

  function UdpEntry(src: uint32, p: bytes): UdpPcbPayload
    requires UdpFits(p)
  {
    UdpPcbPayload(UdpData.Payload(p), IpEndpoint(src, ReadUint16(p, UdpData.SRC_PORT)))
  }

  /** The table after the UDP handler, or its exception. */
  function UdpDeliver(t: Table, src: uint32, dst: uint32, p: bytes): Result<Table>
    requires UdpSized(t, src, dst, p)
  {
    if UdpData.UdpChecksum(src, dst, p) != 0 then Err(UdpChecksumError)
    else
      match Select(t, dst, ReadUint16(p, UdpData.DST_PORT))
      case None => Ok(t)
      case Some(b) => Ok(Push(t, b, UdpEntry(src, p)))
  }

  /** A packet whose fields and header words lie inside the buffer, and, when its header is
      accepted and leaves room for a payload, its payload too. */
  predicate IpReadable(p: bytes) {
    && |p| >= Ipv4Data.BASE_HEADER && Ipv4Data.HeaderReadable(p)
    && (Ipv4Data.HeaderVerifies(p) && ReadUint16(p, Ipv4Data.TOTAL_LENGTH) >= Ipv4Data.HeaderBytes(p)
        ==> Ipv4Data.HasPayload(p))
  }

  /** What stops a packet before its protocol handler is called. The payload, whose size is the
      total length less the header, is taken before the address is looked at. */
  function IpRefusal(unicast: uint32, p: bytes): (r: Option<Error>)
    requires IpReadable(p)
    ensures r.None? ==> Ipv4Data.HasPayload(p)
  {
    if !Ipv4Data.HeaderVerifies(p) then Some(InvalidIpHeader)
    else if ReadUint16(p, Ipv4Data.TOTAL_LENGTH) < Ipv4Data.HeaderBytes(p) then Some(LengthError)
    else if ReadUint32(p, Ipv4Data.DST) != unicast then Some(IpNotForUs)
    else None
  }

  /** What the handler needs: only what is passed on has to be sized for where it goes. */
  predicate IpSized(t: Table, unicast: uint32, p: bytes) {
    && IpReadable(p)
    && (IpRefusal(unicast, p).None? ==>
          && (At(p, Ipv4Data.PROTOCOL) == UdpData.UDP_TYPE ==>
                UdpSized(t, ReadUint32(p, Ipv4Data.SRC), ReadUint32(p, Ipv4Data.DST), Ipv4Data.Payload(p)))
          && (At(p, Ipv4Data.PROTOCOL) == ICMP_TYPE ==> IcmpSized(Ipv4Data.Payload(p))))
  }

  /** The table after a packet that is not ICMP. */
  function IpDeliver(t: Table, unicast: uint32, p: bytes): Result<Table>
    requires IpSized(t, unicast, p)
  {
    match IpRefusal(unicast, p)
    case Some(e) => Err(e)
    case None =>
      if At(p, Ipv4Data.PROTOCOL) != UdpData.UDP_TYPE then Ok(t)
      else UdpDeliver(t, ReadUint32(p, Ipv4Data.SRC), ReadUint32(p, Ipv4Data.DST), Ipv4Data.Payload(p))
  }

  // ---------------------------------------------------------------- sending, on values

  /** What stops a packet before it is built. */
  function SendRefusal(unicast: uint32, src: uint32, dst: uint32): Option<Error> {
    if src == IP_ADDR_ANY && dst == IP_ADDR_BROADCAST then Some(SourceRequired)
    else if src != IP_ADDR_ANY && src != unicast then Some(SourceMismatch)
    else None
  }

  /** What a layer returns to its caller, and the frames it has put on the wire. */
  datatype Outcome = Outcome(result: Result<()>, frames: seq<bytes>)

  /** The standing of a sender: its addresses, what its ARP cache says of the gateway, and
      the identification of its next packet. */
  datatype Sender = Sender(unicast: uint32, gateway: uint32, mac: bytes, hop: Option<bytes>, id: uint16)

  /** A host's standing: the hop it needs is the one to its gateway. */
  function SenderOf(unicast: uint32, gateway: uint32, mac: bytes, cache: ArpCache.Entries, id: uint16): Sender {
    Sender(unicast, gateway, mac, ArpCache.Find(cache, gateway), id)
  }

  function IpOutcome(s: Sender, protocol: byte, src: uint32, dst: uint32, d: bytes): Outcome
    requires |d| <= Ipv4Data.MAX_PAYLOAD
  {
    match SendRefusal(s.unicast, src, dst)
    case Some(e) => Outcome(Err(e), [])
    case None =>
      match s.hop
      case None => Outcome(Err(ArpMiss), [Arp.RequestFrame(s.mac, s.unicast, s.gateway)])
      case Some(hop) =>
        if |hop| != EtherFrame.ETHER_ADDR_LEN then Outcome(Err(InvalidEtherAddress), [])
        else Outcome(Ok(()), [EtherFrame.Frame(hop, s.mac, EtherFrame.ETHER_TYPE_IP,
                                               Ipv4Data.Packet(s.id, protocol, src, dst, d))])
  }

  predicate Sendable(d: bytes) {
    |d| <= Ipv4Data.MAX_PAYLOAD - UdpData.HEADER_SIZE && |d| % 2 == 0
  }

  function UdpOutcome(s: Sender, src: IpEndpoint, dst: IpEndpoint, d: bytes): Outcome
    requires Sendable(d)
  {
    IpOutcome(s, UdpData.UDP_TYPE, src.addr, dst.addr, UdpData.Sealed(src.addr, src.port, dst.addr, dst.port, d))
  }

  /** A message whose header and checksum words lie inside the buffer; one that is answered must
      fit a packet in its turn. */
  predicate IcmpSized(p: bytes) {
    && Icmp.ECHO_HEADER <= |p| <= 0xFFFF && |p| % 2 == 0
    && (Verifies(p) && p[Icmp.TYPE_OFFSET] == Icmp.TYPE_ECHO ==> |p| <= Ipv4Data.MAX_PAYLOAD)
  }

  /** An accepted echo request is answered towards its sender; anything else is only looked at. */
  function IcmpOutcome(s: Sender, src: uint32, p: bytes): Outcome
    requires IcmpSized(p)
  {
    if !Verifies(p) then Outcome(Err(IcmpChecksumError), [])
    else if p[Icmp.TYPE_OFFSET] != Icmp.TYPE_ECHO then Outcome(Ok(()), [])
    else IpOutcome(s, ICMP_TYPE, s.unicast, src, Icmp.Reply(p))
  }

  /** What a packet makes the host send, and how its handling ends. */
  function IpAnswer(s: Sender, t: Table, p: bytes): Outcome
    requires IpSized(t, s.unicast, p)
  {
    match IpRefusal(s.unicast, p)
    case Some(e) => Outcome(Err(e), [])
    case None =>
      if At(p, Ipv4Data.PROTOCOL) == ICMP_TYPE then
        IcmpOutcome(s, ReadUint32(p, Ipv4Data.SRC), Ipv4Data.Payload(p))
      else
        match IpDeliver(t, s.unicast, p)
        case Err(e) => Outcome(Err(e), [])
        case Ok(_) => Outcome(Ok(()), [])
  }

  // ---------------------------------------------------------------- receiving, exactly

  function Total(p: bytes): nat
    requires |p| >= 4
  {
    0x100 * At(p, 2) + At(p, 3)
  }

  function HeaderSize(p: bytes): nat
    requires |p| > 0
  {
    4 * (At(p, 0) % 16)
  }

  /** The header's words sum up as RFC 1071 wants them to. */
  predicate GoodHeader(p: bytes)
    requires |p| > 0 && |Ipv4Data.HeaderPart(p)| % 2 == 0
  {
    EndAroundFold(WordSum(Ipv4Data.HeaderPart(p))) == 0xFFFF
  }

  /** Which packets are refused, and for what, read off their bytes: nothing counts but the sum of
      the header, its length against the total length, and the destination. */
  lemma RefusedExactly(unicast: uint32, p: bytes)
    requires IpReadable(p)
    ensures |p| >= 20 && |Ipv4Data.HeaderPart(p)| % 2 == 0
    ensures IpRefusal(unicast, p) == Some(InvalidIpHeader) <==> !GoodHeader(p)
    ensures IpRefusal(unicast, p) == Some(LengthError) <==> GoodHeader(p) && Total(p) < HeaderSize(p)
    ensures IpRefusal(unicast, p) == Some(IpNotForUs) <==>
            GoodHeader(p) && Total(p) >= HeaderSize(p) && p[16..20] != U32(unicast)
    ensures IpRefusal(unicast, p) == None <==>
            GoodHeader(p) && Total(p) >= HeaderSize(p) && p[16..20] == U32(unicast)
  {
    Ipv4Data.VerifiesExactly(p);
    FourBytesAre(p, 16, unicast);
  }

  lemma FourBytesAre(p: bytes, o: nat, v: uint32)
    requires o + 4 <= |p|
    ensures ReadUint32(p, o) == v <==> p[o..o + 4] == U32(v)
  {
    Arp.SliceReads(p, o);
    WriteBack(p[o..o + 4]);
    ReadBack32([], v, []);
    assert [] + U32(v) + [] == U32(v);
  }

  /** Any packet, whoever built it: behind a header of five to fifteen words that sums up right and
      tells the length, whatever its other bytes, the payload is found, link padding is dropped,
      and only the destination decides whether the handlers see it. */
  lemma AnyPacket(unicast: uint32, h: bytes, d: bytes, padding: bytes)
    requires |h| >= 20 && |h| == 4 * (At(h, 0) % 16) && |h| + |d| <= 0xFFFF && h[2..4] == U16(|h| + |d|)
    requires EndAroundFold(WordSum(h)) == 0xFFFF
    ensures var p := h + d + padding;
            && IpReadable(p) && Ipv4Data.HasPayload(p) && Ipv4Data.Payload(p) == d
            && IpRefusal(unicast, p) == if h[16..20] == U32(unicast) then None else Some(IpNotForUs)
  {
    var p := h + d + padding;
    AnyPacketRead(h, d, padding);
    PacketParts(h, d, padding);
    RefusedExactly(unicast, p);
  }

  lemma AnyPacketRead(h: bytes, d: bytes, padding: bytes)
    requires |h| >= 20 && |h| == 4 * (At(h, 0) % 16) && |h| + |d| <= 0xFFFF && h[2..4] == U16(|h| + |d|)
    ensures var p := h + d + padding;
            IpReadable(p) && Total(p) == |h| + |d| && Ipv4Data.HasPayload(p) && Ipv4Data.Payload(p) == d
  {
    PacketParts(h, d, padding);
    TotalOf(h, d, padding);
    Ipv4Data.VerifiesExactly(h + d + padding);
  }

  lemma PacketParts(h: bytes, d: bytes, padding: bytes)
    requires |h| >= 20 && |h| == 4 * (At(h, 0) % 16)
    ensures var p := h + d + padding;
            && At(p, 0) == At(h, 0) && Ipv4Data.HeaderPart(p) == h && p[16..20] == h[16..20]
            && p[|h|..|h| + |d|] == d
  {
    assert At(h + d + padding, 0) == At(h, 0);
    assert (h + d + padding)[..|h|] == h;
  }

  lemma TotalOf(h: bytes, d: bytes, padding: bytes)
    requires |h| >= 20 && |h| + |d| <= 0xFFFF && h[2..4] == U16(|h| + |d|)
    ensures ReadUint16(h + d + padding, 2) == |h| + |d|
  {
    var p := h + d + padding;
    assert p[2..4] == h[2..4];
    Arp.WordIs(p, 2, |h| + |d|);
  }

  /** A refused packet changes nothing, and nothing is sent. */
  lemma NothingPassedOn(s: Sender, t: Table, p: bytes)
    requires IpSized(t, s.unicast, p) && IpRefusal(s.unicast, p).Some?
    ensures var e := IpRefusal(s.unicast, p).value;
            IpDeliver(t, s.unicast, p) == Err(e) && IpAnswer(s, t, p) == Outcome(Err(e), [])
  {
  }

  /** Which handler sees an accepted packet, and what of it: protocol 17 goes to UDP, 1 to ICMP,
      with the source and destination that the header names; any other is passed over. */
  lemma PassedOn(s: Sender, t: Table, p: bytes)
    requires IpSized(t, s.unicast, p) && IpRefusal(s.unicast, p).None?
    ensures HeaderSize(p) <= Total(p) <= |p| && Ipv4Data.HasPayload(p)
    ensures Ipv4Data.Payload(p) == p[HeaderSize(p)..Total(p)]
    ensures var d := p[HeaderSize(p)..Total(p)];
            if p[9] == 17 then
              && UdpSized(t, ReadUint32(p, 12), s.unicast, d)
              && IpDeliver(t, s.unicast, p) == UdpDeliver(t, ReadUint32(p, 12), s.unicast, d)
              && IpAnswer(s, t, p) == Outcome(if UdpDeliver(t, ReadUint32(p, 12), s.unicast, d).Ok? then Ok(())
                                              else Err(UdpChecksumError), [])
            else if p[9] == 1 then
              && IpDeliver(t, s.unicast, p) == Ok(t)
              && IcmpSized(d) && IpAnswer(s, t, p) == IcmpOutcome(s, ReadUint32(p, 12), d)
            else IpDeliver(t, s.unicast, p) == Ok(t) && IpAnswer(s, t, p) == Outcome(Ok(()), [])
  {
    assert At(p, 9) == p[9];
    assert Ipv4Data.Payload(p) == p[HeaderSize(p)..Total(p)];
  }

  /** Any datagram, whoever built it, a zero checksum field included, is refused if and only if the
      two folded sums do not add up to all ones. */
  lemma DatagramVerdict(t: Table, src: uint32, dst: uint32, p: bytes, pseudo: nat, sum: nat)
    requires UdpSized(t, src, dst, p)
    requires pseudo == WordSum(U32(src) + U32(dst) + [0, 17] + U16(|p|)) && sum == WordSum(p)
    ensures UdpDeliver(t, src, dst, p).Err? <==> EndAroundFold(Fold(pseudo) + Fold(sum)) != 0xFFFF
    ensures UdpDeliver(t, src, dst, p).Err? ==> UdpDeliver(t, src, dst, p) == Err(UdpChecksumError)
  {
    UdpData.ChecksumExactly(src, dst, p, pseudo, sum);
  }

  /** Any datagram that is accepted is queued once, on the block that answers for its destination
      and under its sender's endpoint, or dropped if there is none. */
  lemma DatagramQueued(t: Table, src: uint32, dst: uint32, p: bytes, t': Table)
    requires UdpSized(t, src, dst, p) && UdpDeliver(t, src, dst, p) == Ok(t')
    ensures |p| >= 8
    ensures match Select(t, dst, 0x100 * At(p, 2) + At(p, 3))
            case None => t' == t
            case Some(b) =>
              Queued(t, t', b, p[8..], 0x100 * At(p, 4) + At(p, 5), IpEndpoint(src, 0x100 * At(p, 0) + At(p, 1)))
  {
  }

  /** Block b has one more entry, of the given length, made of `d` and zeros; nothing else differs. */
  predicate Queued(t: Table, t': Table, b: nat, d: bytes, length: nat, from: IpEndpoint) {
    && b < |t| == |t'| && (forall i :: 0 <= i < |t| && i != b ==> t'[i] == t[i])
    && |t'[b].que| == |t[b].que| + 1 && t'[b] == t[b].(que := t'[b].que)
    && t'[b].que[..|t[b].que|] == t[b].que
    && var m := t'[b].que[|t[b].que|];
       m.endpoint == from && |m.data| == length && |d| <= length && m.data == d + Zeros(length - |d|)
  }

  /** Any ICMP message: it is answered if and only if its words sum up right and its type is 8; with
      another type it is accepted in silence, and with a wrong sum refused. */
  lemma AnyMessage(s: Sender, src: uint32, p: bytes)
    requires IcmpSized(p)
    ensures Verifies(p) <==> EndAroundFold(WordSum(p)) == 0xFFFF
    ensures IcmpOutcome(s, src, p) ==
            if !Verifies(p) then Outcome(Err(IcmpChecksumError), [])
            else if p[0] != 8 then Outcome(Ok(()), [])
            else IpOutcome(s, 1, s.unicast, src, Icmp.Reply(p))
  {
    SingleFoldIsRfc1071(p);
  }

  // ---------------------------------------------------------------- sending, exactly

  /** The addresses a host may send with: its own as the source, or none unless to everybody. */
  predicate Lawful(unicast: uint32, src: uint32, dst: uint32) {
    if src == 0 then dst != 0xFFFF_FFFF else src == unicast
  }

  /** What goes out, for all addresses and all states of the ARP cache: the packet to the gateway's
      hardware address, one ARP request for the gateway, or nothing, with the exception for each. */
  lemma SentExactly(s: Sender, protocol: byte, src: uint32, dst: uint32, d: bytes)
    requires |d| <= Ipv4Data.MAX_PAYLOAD
    ensures var o := IpOutcome(s, protocol, src, dst, d);
            if !Lawful(s.unicast, src, dst) then
              o == Outcome(Err(if src == 0 then SourceRequired else SourceMismatch), [])
            else if s.hop.None? then o == Outcome(Err(ArpMiss), [Arp.RequestFrame(s.mac, s.unicast, s.gateway)])
            else if |s.hop.value| != 6 then o == Outcome(Err(InvalidEtherAddress), [])
            else
              && o.result == Ok(()) && |o.frames| == 1
              && o.frames[0] == EtherFrame.Frame(s.hop.value, s.mac, 0x0800,
                                                 Ipv4Data.Packet(s.id, protocol, src, dst, d))
  {
  }

  /** The bytes of a frame that carries a packet. */
  lemma FrameLayout(hop: bytes, mac: bytes, id: uint16, protocol: byte, src: uint32, dst: uint32, d: bytes)
    requires |hop| == |mac| == 6 && |d| <= Ipv4Data.MAX_PAYLOAD
    ensures var f := EtherFrame.Frame(hop, mac, EtherFrame.ETHER_TYPE_IP, Ipv4Data.Packet(id, protocol, src, dst, d));
            var total := 20 + |d|;
            && |f| == (if total < 46 then 60 else 14 + total)
            && f[..6] == hop && f[6..12] == mac && f[12..14] == [8, 0]
            && f[14..34] == Ipv4Data.Header(total, id, protocol, Ipv4Data.HeaderChecksum(total, id, protocol, src, dst),
                                            src, dst)
            && f[34..34 + |d|] == d && f[34 + |d|..] == Zeros(|f| - 34 - |d|)
  {
    var c := Ipv4Data.HeaderChecksum(20 + |d|, id, protocol, src, dst);
    var h := Ipv4Data.Header(20 + |d|, id, protocol, c, src, dst);
    var packet := Ipv4Data.Packet(id, protocol, src, dst, d);
    assert packet == h + d;
    PaddingSize(packet);
    Slices(hop, mac, h, d, EtherFrame.Padding(packet));
    assert U16(EtherFrame.ETHER_TYPE_IP) == [8, 0];
    assert EtherFrame.Frame(hop, mac, EtherFrame.ETHER_TYPE_IP, packet) ==
           hop + mac + [8, 0] + (h + d) + EtherFrame.Padding(packet);
  }

  lemma PaddingSize(body: bytes)
    ensures |EtherFrame.Padding(body)| == if |body| < 46 then 46 - |body| else 0
    ensures EtherFrame.Padding(body) == Zeros(|EtherFrame.Padding(body)|)
  {
  }

  lemma Slices(hop: bytes, mac: bytes, h: bytes, d: bytes, padding: bytes)
    requires |hop| == |mac| == 6 && |h| == 20
    ensures var f := hop + mac + [8, 0] + (h + d) + padding;
            && |f| == 34 + |d| + |padding| && f[..6] == hop && f[6..12] == mac && f[12..14] == [8, 0]
            && f[14..34] == h && f[34..34 + |d|] == d && f[34 + |d|..] == padding
  {
    var front := hop + mac + [8, 0];
    var f := front + (h + d) + padding;
    assert f[..6] == front[..6] && f[6..12] == front[6..12] && f[12..14] == front[12..];
    assert front[..6] == hop && front[6..12] == mac && front[12..] == [8, 0];
    assert f[14..34] == (h + d)[..20] && f[34..34 + |d|] == (h + d)[20..];
  }

  /** The bytes on the wire of a datagram that is sent: fourteen of Ethernet, twenty of IPv4, eight
      of UDP, the data, and zeros up to the minimum size. */
  lemma WireBytes(s: Sender, src: IpEndpoint, dst: IpEndpoint, d: bytes)
    requires s.hop.Some? && |s.hop.value| == |s.mac| == 6
    requires Lawful(s.unicast, src.addr, dst.addr) && Sendable(d)
    ensures var o := UdpOutcome(s, src, dst, d);
            && |o.frames| == 1
            && var f := o.frames[0];
            && |f| == (if |d| < 18 then 60 else 42 + |d|)
            && f[..6] == s.hop.value && f[6..12] == s.mac && f[12..14] == [8, 0]
            && f[14..24] == [0x45, 0] + U16(28 + |d|) + U16(s.id) + [0, 0] + [0xFF, 17]
            && f[26..34] == U32(src.addr) + U32(dst.addr)
            && f[34..40] == U16(src.port) + U16(dst.port) + U16(8 + |d|)
            && f[42..42 + |d|] == d && f[42 + |d|..] == Zeros(|f| - 42 - |d|)
  {
    var sealed := UdpData.Sealed(src.addr, src.port, dst.addr, dst.port, d);
    SentExactly(s, 17, src.addr, dst.addr, sealed);
    FrameLayout(s.hop.value, s.mac, s.id, 17, src.addr, dst.addr, sealed);
    var f := UdpOutcome(s, src, dst, d).frames[0];
    HeaderOnWire(f, 28 + |d|, s.id, 17, src.addr, dst.addr);
    DatagramOnWire(f, src.addr, src.port, dst.addr, dst.port, d);
  }

  lemma HeaderOnWire(f: bytes, total: uint16, id: uint16, protocol: byte, src: uint32, dst: uint32)
    requires |f| >= 34
    requires f[14..34] == Ipv4Data.Header(total, id, protocol, Ipv4Data.HeaderChecksum(total, id, protocol, src, dst),
                                          src, dst)
    ensures f[14..24] == [0x45, 0] + U16(total) + U16(id) + [0, 0] + [0xFF, protocol]
    ensures f[26..34] == U32(src) + U32(dst)
  {
    var h := f[14..34];
    assert f[14..24] == h[..10] && f[26..34] == h[12..];
  }

  lemma DatagramOnWire(f: bytes, src: uint32, srcPort: uint16, dst: uint32, dstPort: uint16, d: bytes)
    requires |d| <= UdpData.MAX_PAYLOAD && |d| % 2 == 0 && |f| >= 42 + |d|
    requires f[34..42 + |d|] == UdpData.Sealed(src, srcPort, dst, dstPort, d)
    ensures f[34..40] == U16(srcPort) + U16(dstPort) + U16(8 + |d|) && f[42..42 + |d|] == d
  {
    var p := f[34..42 + |d|];
    assert f[34..40] == p[..6] && f[42..42 + |d|] == p[8..];
  }

  /** A socket can send if and only if it is bound to nothing, or to the host's own address. */
  lemma SocketSends(b: Block, s: Sender, dst: IpEndpoint, d: bytes)
    requires Sendable(d) && s.unicast != 0 && s.hop.Some? && |s.hop.value| == 6
    ensures var o := UdpOutcome(s, IpEndpoint(LocalAddress(b, s.unicast), b.endpoint.port), dst, d);
            if b.endpoint.addr == 0 || b.endpoint.addr == s.unicast then o.result == Ok(()) && |o.frames| == 1
            else o == Outcome(Err(SourceMismatch), [])
  {
    var src := LocalAddress(b, s.unicast);
    SentExactly(s, 17, src, dst.addr, UdpData.Sealed(src, b.endpoint.port, dst.addr, dst.port, d));
  }

  /** In every run of the ARP protocol, what a host sends goes out to the true hardware address of
      its gateway, or is an ARP request for it, or is not lawful. */
  lemma SentToGateway(run: seq<ArpNetwork.Net>, i: nat, h: nat, g: nat, id: uint16, protocol: byte,
                      src: uint32, dst: uint32, d: bytes)
    requires ArpNetwork.Run(run) && i < |run| && h < |run[0].hosts| && g < |run[0].hosts| && |d| <= Ipv4Data.MAX_PAYLOAD
    ensures |run[i].caches| == |run[0].hosts|
    ensures var me, gateway := run[0].hosts[h], run[0].hosts[g];
            var s := SenderOf(me.ip, gateway.ip, me.mac, run[i].caches[h], id);
            var o := IpOutcome(s, protocol, src, dst, d);
            if !Lawful(me.ip, src, dst) then o.result.Err? && o.frames == []
            else if ArpCache.Find(run[i].caches[h], gateway.ip).None? then
              o == Outcome(Err(ArpMiss), [Arp.RequestFrame(me.mac, me.ip, gateway.ip)])
            else
              o == Outcome(Ok(()), [EtherFrame.Frame(gateway.mac, me.mac, 0x0800,
                                                     Ipv4Data.Packet(id, protocol, src, dst, d))])
  {
    ArpNetwork.RunTruthful(run, i);
    var me, gateway := run[0].hosts[h], run[0].hosts[g];
    ArpNetwork.FoundIsTrue(run[i], h, g);
    var s := SenderOf(me.ip, gateway.ip, me.mac, run[i].caches[h], id);
    SentExactly(s, protocol, src, dst, d);
  }

  // ---------------------------------------------------------------- end to end

  lemma SealedIsSized(src: uint32, srcPort: uint16, dst: uint32, dstPort: uint16, d: bytes)
    requires |d| <= UdpData.MAX_PAYLOAD && |d| % 2 == 0
    ensures var p := UdpData.Sealed(src, srcPort, dst, dstPort, d);
            && UdpFits(p) && ReadUint16(p, UdpData.DST_PORT) == dstPort
            && UdpEntry(src, p) == UdpPcbPayload(d + Zeros(UdpData.HEADER_SIZE), IpEndpoint(src, srcPort))
  {
    UdpData.DatagramFields(srcPort, dstPort,
                           UdpData.UdpChecksum(src, dst, UdpData.Datagram(srcPort, dstPort, 0, d)), d);
  }

  lemma SealedDelivery(t: Table, src: IpEndpoint, dst: IpEndpoint, d: bytes)
    requires |d| <= UdpData.MAX_PAYLOAD && |d| % 2 == 0
    ensures UdpSized(t, src.addr, dst.addr, UdpData.Sealed(src.addr, src.port, dst.addr, dst.port, d))
    ensures UdpDeliver(t, src.addr, dst.addr, UdpData.Sealed(src.addr, src.port, dst.addr, dst.port, d)) ==
            if !UdpData.SealedDeliverable(src.addr, src.port, dst.addr, dst.port, d) then Err(UdpChecksumError)
            else match Select(t, dst.addr, dst.port)
              case None => Ok(t)
              case Some(b) => Ok(Push(t, b, UdpPcbPayload(d + Zeros(UdpData.HEADER_SIZE), src)))
  {
    SealedIsSized(src.addr, src.port, dst.addr, dst.port, d);
    UdpData.ChecksumRoundTrip(src.addr, src.port, dst.addr, dst.port, d);
  }

  /** The receiving layers from IPv4 up, on a packet with any padding behind it. */
  lemma PacketDelivery(t: Table, unicast: uint32, id: uint16, src: IpEndpoint, dst: IpEndpoint, d: bytes, padding: bytes)
    requires Sendable(d)
    ensures var p := Ipv4Data.Packet(id, UdpData.UDP_TYPE, src.addr, dst.addr,
                                     UdpData.Sealed(src.addr, src.port, dst.addr, dst.port, d)) + padding;
            var total := Ipv4Data.BASE_HEADER + UdpData.HEADER_SIZE + |d|;
            && IpSized(t, unicast, p)
            && IpDeliver(t, unicast, p) ==
               if !Ipv4Data.HeaderDeliverable(total, id, UdpData.UDP_TYPE, src.addr, dst.addr) then Err(InvalidIpHeader)
               else if dst.addr != unicast then Err(IpNotForUs)
               else if !UdpData.SealedDeliverable(src.addr, src.port, dst.addr, dst.port, d) then Err(UdpChecksumError)
               else match Select(t, dst.addr, dst.port)
                 case None => Ok(t)
                 case Some(b) => Ok(Push(t, b, UdpPcbPayload(d + Zeros(UdpData.HEADER_SIZE), src)))
  {
    var datagram := UdpData.Sealed(src.addr, src.port, dst.addr, dst.port, d);
    SealedDelivery(t, src, dst, d);
    Ipv4Data.PacketRoundTrip(id, UdpData.UDP_TYPE, src.addr, dst.addr, datagram, padding);
  }

  /** End to end, exactly. A sender whose source address is lawful and whose gateway is
      resolved puts one frame on the wire. Of that frame, the receiver's layers make one queue
      entry on the block that is selected, holding the sender's endpoint and d followed by
      eight zero bytes, and never any link padding; unless the sender's header or datagram
      sum has carries that the receiver will trip over, which is known before sending. */
  lemma EndToEnd(s: Sender, src: IpEndpoint, dst: IpEndpoint, d: bytes, t: Table, unicast: uint32)
    requires s.hop.Some? && |s.hop.value| == |s.mac| == EtherFrame.ETHER_ADDR_LEN
    requires if src.addr == 0 then dst.addr != 0xFFFF_FFFF else src.addr == s.unicast
    requires |d| <= 1472
    requires |d| % 2 == 0
    ensures var o := UdpOutcome(s, src, dst, d);
            var total := Ipv4Data.BASE_HEADER + UdpData.HEADER_SIZE + |d|;
            && o.result == Ok(()) && |o.frames| == 1
            && var f := o.frames[0];
            && 60 <= |f| <= 1514 && f[..6] == s.hop.value && ReadUint16(f, 12) == 0x0800
            && IpSized(t, unicast, EtherFrame.Body(f))
            && IpDeliver(t, unicast, EtherFrame.Body(f)) ==
               if !Ipv4Data.HeaderDeliverable(total, s.id, UdpData.UDP_TYPE, src.addr, dst.addr) then Err(InvalidIpHeader)
               else if dst.addr != unicast then Err(IpNotForUs)
               else if !UdpData.SealedDeliverable(src.addr, src.port, dst.addr, dst.port, d) then Err(UdpChecksumError)
               else match Select(t, dst.addr, dst.port)
                 case None => Ok(t)
                 case Some(b) => Ok(Push(t, b, UdpPcbPayload(d + Zeros(UdpData.HEADER_SIZE), src)))
  {
    var packet := Ipv4Data.Packet(s.id, UdpData.UDP_TYPE, src.addr, dst.addr,
                                  UdpData.Sealed(src.addr, src.port, dst.addr, dst.port, d));
    EtherFrame.FrameRoundTrip(s.hop.value, s.mac, EtherFrame.ETHER_TYPE_IP, packet);
    PacketDelivery(t, unicast, s.id, src, dst, d, EtherFrame.Padding(packet));
  }

  /** An echo and its answer, exactly. A host that accepts an echo request, in a packet from whom
      ever and however padded, answers its sender with one frame; of it, the asking host reads the
      reply it belongs to, takes it as what it is, and answers nothing, unless the header or the
      reply's sum has carries it trips over. */
  lemma EchoRoundTrip(s: Sender, asker: Sender, t: Table, request: bytes)
    requires IpSized(t, s.unicast, request) && IpRefusal(s.unicast, request).None?
    requires request[9] == 1 && ReadUint32(request, 12) == asker.unicast
    requires var p := Ipv4Data.Payload(request); Verifies(p) && p[0] == 8 && |p| <= 1480
    requires s.hop.Some? && |s.hop.value| == |s.mac| == EtherFrame.ETHER_ADDR_LEN
    requires s.unicast != 0 || asker.unicast != 0xFFFF_FFFF
    ensures IpAnswer(s, t, request) == IcmpOutcome(s, asker.unicast, Ipv4Data.Payload(request))
    ensures Answered(s, asker, Ipv4Data.Payload(request))
  {
    PassedOn(s, t, request);
    EchoAnswered(s, asker, Ipv4Data.Payload(request));
  }

  /** The answer to an accepted echo request p, and what becomes of it. */
  predicate Answered(s: Sender, asker: Sender, p: bytes)
    requires IcmpSized(p) && Verifies(p) && p[0] == 8 && |p| <= 1480
  {
    var o := IcmpOutcome(s, asker.unicast, p);
    && s.hop.Some? && o.result == Ok(()) && |o.frames| == 1
    && 60 <= |o.frames[0]| <= 1514 && o.frames[0][..6] == s.hop.value
    && ReadAsReply(s, asker, p, EtherFrame.Body(o.frames[0]))
    && IcmpOutcome(asker, s.unicast, Icmp.Reply(p)) ==
       (if NoSecondCarry(WordSum(Icmp.Cleared(p))) then Outcome(Ok(()), [])
        else Outcome(Err(IcmpChecksumError), []))
  }

  /** The asker reads packet q as coming from s and holding the reply to p. */
  predicate ReadAsReply(s: Sender, asker: Sender, p: bytes, q: bytes)
    requires 8 <= |p| <= 1480 && |p| % 2 == 0
  {
    && IpReadable(q) && q[9] == 1 && ReadUint32(q, 12) == s.unicast
    && Ipv4Data.HasPayload(q) && Ipv4Data.Payload(q) == Icmp.Reply(p)
    && IpRefusal(asker.unicast, q) ==
       (if Ipv4Data.HeaderDeliverable(20 + |p|, s.id, 1, s.unicast, asker.unicast)
        then None else Some(InvalidIpHeader))
  }

  lemma ReplyIsRead(s: Sender, asker: Sender, p: bytes, padding: bytes)
    requires 8 <= |p| <= 1480 && |p| % 2 == 0
    ensures ReadAsReply(s, asker, p, Ipv4Data.Packet(s.id, 1, s.unicast, asker.unicast, Icmp.Reply(p)) + padding)
  {
    Icmp.ReplyBytes(p);
    Ipv4Data.PacketRoundTrip(s.id, 1, s.unicast, asker.unicast, Icmp.Reply(p), padding);
    var q := Ipv4Data.Packet(s.id, 1, s.unicast, asker.unicast, Icmp.Reply(p)) + padding;
    assert At(q, 9) == 1;
  }

  lemma ReplyTaken(asker: Sender, src: uint32, p: bytes)
    requires 8 <= |p| <= 1480 && |p| % 2 == 0
    ensures IcmpSized(Icmp.Reply(p))
    ensures IcmpOutcome(asker, src, Icmp.Reply(p)) ==
            if NoSecondCarry(WordSum(Icmp.Cleared(p))) then Outcome(Ok(()), []) else Outcome(Err(IcmpChecksumError), [])
  {
    Icmp.ReplyBytes(p);
    Icmp.ReplyAccepted(p);
  }

  lemma EchoAnswered(s: Sender, asker: Sender, p: bytes)
    requires IcmpSized(p) && Verifies(p) && p[0] == 8 && |p| <= 1480
    requires s.hop.Some? && |s.hop.value| == |s.mac| == EtherFrame.ETHER_ADDR_LEN
    requires s.unicast != 0 || asker.unicast != 0xFFFF_FFFF
    ensures Answered(s, asker, p)
  {
    var packet := Ipv4Data.Packet(s.id, 1, s.unicast, asker.unicast, Icmp.Reply(p));
    AnyMessage(s, asker.unicast, p);
    SentExactly(s, 1, s.unicast, asker.unicast, Icmp.Reply(p));
    EtherFrame.FrameRoundTrip(s.hop.value, s.mac, 0x0800, packet);
    ReplyIsRead(s, asker, p, EtherFrame.Padding(packet));
    ReplyTaken(asker, s.unicast, p);
  }

  // ---------------------------------------------------------------- the host itself

  class Host {
    const unicast: uint32
    const gateway: uint32
    const dev: EtherFrame.EtherDevice
    const arpCache: ArpCache.ArpCache
    const mgr: UdpPcbManager.Manager
    var ipId: uint16

    constructor (unicast: uint32, gateway: uint32, mac: bytes)
      requires |mac| == EtherFrame.ETHER_ADDR_LEN
      ensures Valid() && fresh(dev) && fresh(arpCache) && fresh(mgr.udpPcbList)
      ensures this.unicast == unicast && this.gateway == gateway && dev.address == mac
      ensures dev.written == [] && arpCache.cache == [] && OpenPrefix(mgr.Table(), 0) && ipId == 128
    {
      this.unicast, this.gateway := unicast, gateway;
      dev := new EtherFrame.EtherDevice(mac);
      arpCache := new ArpCache.ArpCache();
      mgr := new UdpPcbManager.Manager();
      ipId := 128;
    }

    ghost predicate Valid() {
      |dev.address| == EtherFrame.ETHER_ADDR_LEN && mgr.Valid()
    }

    ghost function Standing(): Sender
      reads this, arpCache
    {
      SenderOf(unicast, gateway, dev.address, arpCache.cache, ipId)
    }

    method IpGenId() returns (ret: uint16)
      modifies this
      ensures ret == old(ipId) && ipId == (old(ipId) + 1) % 0x1_0000
    {
      ret := ipId;
      ipId := (ipId + 1) % 0x1_0000;
    }

    method Ipv4Output(protocol: byte, d: bytes, src: uint32, dst: uint32) returns (r: Result<()>)
      requires Valid() && |d| <= Ipv4Data.MAX_PAYLOAD
      modifies this, dev
      ensures var o := IpOutcome(old(Standing()), protocol, src, dst, d);
              r == o.result && dev.written == old(dev.written) + o.frames
      ensures ipId == if SendRefusal(unicast, src, dst).Some? then old(ipId) else (old(ipId) + 1) % 0x1_0000
    {
      if src == IP_ADDR_ANY && dst == IP_ADDR_BROADCAST {
        return Err(SourceRequired);
      }
      if src != IP_ADDR_ANY && src != unicast {
        return Err(SourceMismatch);
      }
      var id := IpGenId();
      var packet := Ipv4Data.NewPacket(id, protocol, src, dst, d);
      var hop := Arp.Resolve(dev, arpCache, unicast, gateway);
      if hop.Err? {
        return Err(hop.error);
      }
      r := dev.Transmit(packet.data, hop.value, EtherFrame.ETHER_TYPE_IP);
    }

    method UdpOutput(src: IpEndpoint, dst: IpEndpoint, d: bytes) returns (r: Result<()>)
      requires Valid() && Sendable(d)
      modifies this, dev
      ensures var o := UdpOutcome(old(Standing()), src, dst, d);
              r == o.result && dev.written == old(dev.written) + o.frames
    {
      var payload := UdpData.NewDatagram(src.port, dst.port, d);
      var checksum := UdpData.ComputeChecksum(src.addr, dst.addr, payload.data);
      UdpData.FilledSum(src.port, dst.port, checksum, d);
      payload.WriteUint16(checksum, UdpData.CHECKSUM);
      r := Ipv4Output(UdpData.UDP_TYPE, payload.data, src.addr, dst.addr);
    }

    /** `sendTo`: the port argument is cut to 16 bits; the source endpoint is the block's. */
    method SendTo(sock: UdpPcbManager.UdpSocket, d: bytes, ip: uint32, port: uint32) returns (r: Result<()>)
      requires Valid() && sock.pcbId < TABLE_SIZE && Sendable(d)
      modifies this, dev, mgr.udpPcbList
      ensures old(mgr.Table()[sock.pcbId].state) != OPEN ==>
                r == Err(PcbNotFound) && mgr.Table() == old(mgr.Table()) && dev.written == old(dev.written)
      ensures old(mgr.Table()[sock.pcbId].state) == OPEN ==>
                && mgr.Table() == AssignPort(old(mgr.Table()), sock.pcbId, unicast)
                && var src := IpEndpoint(LocalAddress(old(mgr.Table()[sock.pcbId]), unicast),
                                         mgr.Table()[sock.pcbId].endpoint.port);
                && var o := UdpOutcome(old(Standing()), src, IpEndpoint(ip, port % 0x1_0000), d);
                && src.port != 0 && r == o.result && dev.written == old(dev.written) + o.frames
    {
      var local := sock.LocalEndpoint(mgr, unicast);
      if local.Err? {
        return Err(local.error);
      }
      r := UdpOutput(local.value, IpEndpoint(ip, port % 0x1_0000), d);
    }

    method UdpHandle(src: uint32, dst: uint32, p: bytes) returns (r: Result<int>)
      requires Valid() && UdpSized(mgr.Table(), src, dst, p)
      modifies mgr.udpPcbList
      ensures match UdpDeliver(old(mgr.Table()), src, dst, p)
              case Err(e) => r == Err(e) && mgr.Table() == old(mgr.Table())
              case Ok(t) =>
                && mgr.Table() == t
                && r == Ok(if Unmatched(old(mgr.Table()), dst, ReadUint16(p, UdpData.DST_PORT)) then -1 else 0)
    {
      var checksum := UdpData.ComputeChecksum(src, dst, p);
      if checksum != 0 {
        return Err(UdpChecksumError);
      }
      var pcb := mgr.Select(dst, ReadUint16(p, UdpData.DST_PORT));
      if pcb.None? {
        return Ok(-1);
      }
      pcb.value.que := pcb.value.que + [UdpEntry(src, p)];
      r := Ok(0);
    }

    method IcmpHandle(src: uint32, p: bytes) returns (r: Result<()>)
      requires Valid() && IcmpSized(p)
      modifies this, dev
      ensures var o := IcmpOutcome(old(Standing()), src, p);
              r == o.result && dev.written == old(dev.written) + o.frames
    {
      FrontRange(p, |p|);
      assert p[..|p|] == p;
      var ok := VerifyChecksum(p, 0, |p|);
      if !ok {
        return Err(IcmpChecksumError);
      }
      r := Ok(());
      if p[Icmp.TYPE_OFFSET] == Icmp.TYPE_ECHO {
        var reply := Icmp.BuildReply(p);
        r := Ipv4Output(ICMP_TYPE, reply.data, unicast, src);
      }
    }

    /** `Ipv4ProtocolHandler::handle`: header check, address check, then the handler of the protocol. */
    method Ipv4Handle(p: BinaryPayload) returns (r: Result<()>)
      requires Valid() && IpSized(mgr.Table(), unicast, p.data)
      modifies this, dev, mgr.udpPcbList
      ensures var o := IpAnswer(old(Standing()), old(mgr.Table()), p.data);
              r == o.result && dev.written == old(dev.written) + o.frames
      ensures mgr.Table() == match IpDeliver(old(mgr.Table()), unicast, p.data)
                             case Err(_) => old(mgr.Table())
                             case Ok(t) => t
    {
      var ok := Ipv4Data.VerifyHeader(p);
      if !ok {
        return Err(InvalidIpHeader);
      }
      if ReadUint16(p.data, Ipv4Data.TOTAL_LENGTH) < Ipv4Data.HeaderBytes(p.data) {
        return Err(LengthError);
      }
      var data := Ipv4Data.Payload(p.data);
      if ReadUint32(p.data, Ipv4Data.DST) != unicast {
        return Err(IpNotForUs);
      }
      r := Ok(());
      var src, dst := ReadUint32(p.data, Ipv4Data.SRC), ReadUint32(p.data, Ipv4Data.DST);
      if At(p.data, Ipv4Data.PROTOCOL) == UdpData.UDP_TYPE {
        var handled := UdpHandle(src, dst, data);
        if handled.Err? {
          return Err(handled.error);
        }
      } else if At(p.data, Ipv4Data.PROTOCOL) == ICMP_TYPE {
        r := IcmpHandle(src, data);
      }
    }
  }
}
