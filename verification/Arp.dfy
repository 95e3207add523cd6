/** ARP packets for Ethernet and IPv4, and the handler and resolver of one host. */
module Arp {
  import opened Wrappers
  import opened Bytes
  import opened ArpData
  import opened ArpCache
  import EtherFrame

  const ARP_HARDWARE_TYPE_ETHER: uint16 := 1
  const ARP_PROTOCOL_TYPE_IP: uint16 := 0x0800
  const ETHER_ADDRESS_LEN: byte := 6
  const IP_ADDRESS_LEN: byte := 4

  // ---------------------------------------------------------------- packets

  /** An Ethernet/IPv4 ARP packet as RFC 826 draws it. */
  function Packet(op: uint16, sha: bytes, spa: bytes, tha: bytes, tpa: bytes): bytes {
    Header(ARP_HARDWARE_TYPE_ETHER, ARP_PROTOCOL_TYPE_IP, ETHER_ADDRESS_LEN, IP_ADDRESS_LEN, op)
    + sha + spa + tha + tpa
  }

  predicate Addresses(sha: bytes, spa: bytes, tha: bytes, tpa: bytes) {
    |sha| == |tha| == 6 && |spa| == |tpa| == 4
  }

  /** Link padding behind the packet does not reach its fields. */
  lemma PacketFields(op: uint16, sha: bytes, spa: bytes, tha: bytes, tpa: bytes, padding: bytes)
    requires Addresses(sha, spa, tha, tpa)
    ensures var p := Packet(op, sha, spa, tha, tpa) + padding;
            && WellSized(p) && HardwareLength(p) == 6 && ProtocolLength(p) == 4
            && ReadUint16(p, PROTOCOL_TYPE) == ARP_PROTOCOL_TYPE_IP && ReadUint16(p, OPERATION) == op
            && Get(p, SenderHardware) == sha && Get(p, SenderProtocol) == spa
            && Get(p, TargetHardware) == tha && Get(p, TargetProtocol) == tpa
  {
    var p := Packet(op, sha, spa, tha, tpa) + padding;
    assert At(p, 2) == 8 && At(p, 3) == 0 && At(p, 4) == 6 && At(p, 5) == 4;
    assert At(p, 6) == op / 0x100 && At(p, 7) == op % 0x100;
  }

  method BuildPacket(op: uint16, sha: bytes, spa: bytes, tha: bytes, tpa: bytes) returns (p: BinaryPayload)
    requires Addresses(sha, spa, tha, tpa)
    ensures fresh(p) && p.data == Packet(op, sha, spa, tha, tpa)
  {
    p := ArpDataFactory(ARP_HARDWARE_TYPE_ETHER, ARP_PROTOCOL_TYPE_IP, ETHER_ADDRESS_LEN, IP_ADDRESS_LEN, op);
    ghost var h := Header(ARP_HARDWARE_TYPE_ETHER, ARP_PROTOCOL_TYPE_IP, ETHER_ADDRESS_LEN, IP_ADDRESS_LEN, op);
    FieldWrites(h, op, sha, spa, tha, tpa);
    SetField(p, SenderHardware, sha);
    SetField(p, SenderProtocol, spa);
    SetField(p, TargetHardware, tha);
    SetField(p, TargetProtocol, tpa);
  }

  lemma Lengths(p: bytes, op: uint16, rest: bytes)
    requires p == Header(ARP_HARDWARE_TYPE_ETHER, ARP_PROTOCOL_TYPE_IP, ETHER_ADDRESS_LEN, IP_ADDRESS_LEN, op) + rest
    ensures HardwareLength(p) == 6 && ProtocolLength(p) == 4
  {
  }

  lemma FieldWrites(h: bytes, op: uint16, sha: bytes, spa: bytes, tha: bytes, tpa: bytes)
    requires h == Header(ARP_HARDWARE_TYPE_ETHER, ARP_PROTOCOL_TYPE_IP, ETHER_ADDRESS_LEN, IP_ADDRESS_LEN, op)
    requires Addresses(sha, spa, tha, tpa)
    ensures var p0, p1 := h + Zeros(20), h + (sha + Zeros(14));
            var p2, p3 := h + (sha + spa + Zeros(10)), h + (sha + spa + tha + Zeros(4));
            && WellSized(p0) && Length(p0, SenderHardware) == 6 && Set(p0, SenderHardware, sha) == p1
            && WellSized(p1) && Length(p1, SenderProtocol) == 4 && Set(p1, SenderProtocol, spa) == p2
            && WellSized(p2) && Length(p2, TargetHardware) == 6 && Set(p2, TargetHardware, tha) == p3
            && WellSized(p3) && Length(p3, TargetProtocol) == 4
            && Set(p3, TargetProtocol, tpa) == Packet(op, sha, spa, tha, tpa)
  {
    Lengths(h + Zeros(20), op, Zeros(20));
    Lengths(h + (sha + Zeros(14)), op, sha + Zeros(14));
    Lengths(h + (sha + spa + Zeros(10)), op, sha + spa + Zeros(10));
    Lengths(h + (sha + spa + tha + Zeros(4)), op, sha + spa + tha + Zeros(4));
  }

  // ---------------------------------------------------------------- one host

  function RequestFrame(mac: bytes, unicast: uint32, ip: uint32): bytes {
    EtherFrame.Frame(EtherFrame.BROADCAST, mac, EtherFrame.ETHER_TYPE_ARP,
                     Packet(OP_REQUEST, mac, U32(unicast), Zeros(6), U32(ip)))
  }

  function ReplyFrame(mac: bytes, unicast: uint32, p: bytes): bytes
    requires WellSized(p)
  {
    EtherFrame.Frame(Get(p, SenderHardware), mac, EtherFrame.ETHER_TYPE_ARP,
                     Packet(OP_REPLY, mac, U32(unicast), Get(p, SenderHardware), Get(p, SenderProtocol)))
  }

  /** The exception, if any, that a packet runs into, in the order of the handler's checks. */
  function Refusal(p: bytes, unicast: uint32): Option<Error>
    requires WellSized(p)
  {
    if HardwareLength(p) != 6 then Some(InvalidMacLength)
    else if ProtocolLength(p) != 4 then Some(InvalidIpv4Length)
    else if ReadUint16(p, PROTOCOL_TYPE) != EtherFrame.ETHER_TYPE_IP then Some(UnsupportedProtocol)
    else if ReadUint32(Get(p, TargetProtocol), 0) != unicast then Some(ArpTargetMismatch)
    else None
  }

  /** A packet is accepted exactly when it is an Ethernet/IPv4 one that asks for, or answers, this host's address. */
  lemma AcceptedExactly(p: bytes, unicast: uint32)
    requires WellSized(p)
    ensures Refusal(p, unicast).None? <==>
            HardwareLength(p) == 6 && ProtocolLength(p) == 4 && ReadUint16(p, PROTOCOL_TYPE) == 0x0800
            && Get(p, TargetProtocol) == U32(unicast)
  {
    if ProtocolLength(p) == 4 {
      WriteBack(Get(p, TargetProtocol));
      ReadBack32([], unicast, []);
      assert [] + U32(unicast) + [] == U32(unicast);
    }
  }

  /** Which exception a refused packet runs into, read off its bytes. */
  lemma RefusedExactly(p: bytes, unicast: uint32)
    requires WellSized(p)
    ensures Refusal(p, unicast) == Some(InvalidMacLength) <==> p[4] != 6
    ensures Refusal(p, unicast) == Some(InvalidIpv4Length) <==> p[4] == 6 && p[5] != 4
    ensures Refusal(p, unicast) == Some(UnsupportedProtocol) <==> p[4] == 6 && p[5] == 4 && p[2..4] != [8, 0]
    ensures Refusal(p, unicast) == Some(ArpTargetMismatch) <==>
            p[4] == 6 && p[5] == 4 && p[2..4] == [8, 0] && p[24..28] != U32(unicast)
    ensures Refusal(p, unicast) == None <==>
            p[4] == 6 && p[5] == 4 && p[2..4] == [8, 0] && p[24..28] == U32(unicast)
  {
    assert At(p, 4) == p[4] && At(p, 5) == p[5];
    WordIs(p, 2, 0x0800);
    if p[4] == 6 && p[5] == 4 {
      AcceptedExactly(p, unicast);
      assert Get(p, TargetProtocol) == p[24..28];
    }
  }

  lemma WordIs(p: bytes, o: nat, v: uint16)
    requires o + 2 <= |p|
    ensures ReadUint16(p, o) == v <==> p[o..o + 2] == U16(v)
  {
    var h, l := At(p, o), At(p, o + 1);
    assert p[o..o + 2] == [h, l];
    assert (0x100 * h + l) / 0x100 == h && (0x100 * h + l) % 0x100 == l;
  }

  function Sender(p: bytes): CacheData
    requires WellSized(p) && ProtocolLength(p) == 4
  {
    CacheData(ReadUint32(Get(p, SenderProtocol), 0), Get(p, SenderHardware))
  }

  function Answer(mac: bytes, unicast: uint32, p: bytes): seq<bytes>
    requires WellSized(p)
  {
    if ReadUint16(p, OPERATION) == OP_REQUEST then [ReplyFrame(mac, unicast, p)] else []
  }

  /** The bytes of an ARP frame that this stack sends. */
  lemma FrameBytes(dst: bytes, mac: bytes, op: uint16, spa: bytes, tha: bytes, tpa: bytes)
    requires |dst| == 6 && Addresses(mac, spa, tha, tpa)
    ensures EtherFrame.Frame(dst, mac, EtherFrame.ETHER_TYPE_ARP, Packet(op, mac, spa, tha, tpa)) ==
            dst + mac + [8, 6] + [0, 1, 8, 0, 6, 4] + U16(op) + mac + spa + tha + tpa + Zeros(18)
  {
    var p := Packet(op, mac, spa, tha, tpa);
    assert |p| == 28;
    assert EtherFrame.Padding(p) == Zeros(18);
    assert p == [0, 1, 8, 0, 6, 4] + U16(op) + mac + spa + tha + tpa;
  }

  /** A miss asks everybody for the hardware address that belongs to ip. */
  lemma RequestBytes(mac: bytes, unicast: uint32, ip: uint32)
    requires |mac| == 6
    ensures RequestFrame(mac, unicast, ip) ==
            [0xFF, 0xFF, 0xFF, 0xFF, 0xFF, 0xFF] + mac + [8, 6]
            + [0, 1, 8, 0, 6, 4, 0, 1] + mac + U32(unicast) + [0, 0, 0, 0, 0, 0] + U32(ip) + Zeros(18)
  {
    FrameBytes(EtherFrame.BROADCAST, mac, OP_REQUEST, U32(unicast), Zeros(6), U32(ip));
    assert Zeros(6) == [0, 0, 0, 0, 0, 0];
    assert [0, 1, 8, 0, 6, 4] + U16(OP_REQUEST) == [0, 1, 8, 0, 6, 4, 0, 1];
  }

  /** Who an Ethernet/IPv4 packet says it is from. */
  lemma SenderExactly(p: bytes)
    requires WellSized(p) && p[4] == 6 && p[5] == 4
    ensures |p| >= 28 && Get(p, SenderHardware) == p[8..14] && Get(p, SenderProtocol) == p[14..18]
    ensures Sender(p) == CacheData(ReadUint32(p, 14), p[8..14])
  {
    assert At(p, 4) == 6 && At(p, 5) == 4;
    SliceReads(p, 14);
  }

  lemma SliceReads(p: bytes, o: nat)
    requires o + 4 <= |p|
    ensures ReadUint32(p[o..o + 4], 0) == ReadUint32(p, o)
  {
    var s := p[o..o + 4];
    assert At(s, 0) == At(p, o) && At(s, 1) == At(p, o + 1) && At(s, 2) == At(p, o + 2) && At(s, 3) == At(p, o + 3);
  }

  /** The reply goes to the asker, as the frame's destination and as the packet's target, in the
      name of this host's address. */
  lemma ReplyBytes(mac: bytes, unicast: uint32, p: bytes)
    requires |mac| == 6 && WellSized(p) && p[4] == 6 && p[5] == 4
    ensures |p| >= 28
    ensures ReplyFrame(mac, unicast, p) ==
            p[8..14] + mac + [8, 6]
            + [0, 1, 8, 0, 6, 4, 0, 2] + mac + U32(unicast) + p[8..14] + p[14..18] + Zeros(18)
  {
    SenderExactly(p);
    FrameBytes(p[8..14], mac, OP_REPLY, U32(unicast), p[8..14], p[14..18]);
    assert [0, 1, 8, 0, 6, 4] + U16(OP_REPLY) == [0, 1, 8, 0, 6, 4, 0, 2];
  }

  /** An accepted packet leaves its sender in the cache, and is answered if and only if it is a request. */
  lemma AnswerExactly(mac: bytes, unicast: uint32, p: bytes)
    requires |mac| == 6 && WellSized(p) && Refusal(p, unicast).None?
    ensures |p| >= 28 && Sender(p) == CacheData(ReadUint32(p, 14), p[8..14])
    ensures p[6..8] != [0, 1] ==> Answer(mac, unicast, p) == []
    ensures p[6..8] == [0, 1] ==>
              |Answer(mac, unicast, p)| == 1 &&
              Answer(mac, unicast, p)[0] ==
              p[8..14] + mac + [8, 6]
              + [0, 1, 8, 0, 6, 4, 0, 2] + mac + U32(unicast) + p[8..14] + p[14..18] + Zeros(18)
  {
    RefusedExactly(p, unicast);
    SenderExactly(p);
    WordIs(p, 6, 1);
    ReplyBytes(mac, unicast, p);
  }

  method Handle(dev: EtherFrame.EtherDevice, cache: ArpCache, unicast: uint32, p: BinaryPayload)
    returns (r: Result<()>)
    requires |dev.address| == 6 && WellSized(p.data)
    modifies dev, cache
    ensures match Refusal(p.data, unicast)
            case Some(e) => r == Err(e) && cache.cache == old(cache.cache) && dev.written == old(dev.written)
            case None =>
              && r == Ok(())
              && cache.cache == Create(old(cache.cache), Sender(p.data))
              && dev.written == old(dev.written) + Answer(dev.address, unicast, p.data)
  {
    if HardwareLength(p.data) != 6 {
      return Err(InvalidMacLength);
    }
    if ProtocolLength(p.data) != 4 {
      return Err(InvalidIpv4Length);
    }
    if ReadUint16(p.data, PROTOCOL_TYPE) != EtherFrame.ETHER_TYPE_IP {
      return Err(UnsupportedProtocol);
    }
    var target := GetField(p, TargetProtocol);
    if ReadUint32(target, 0) != unicast {
      return Err(ArpTargetMismatch);
    }
    var senderProtocol := GetField(p, SenderProtocol);
    var senderHardware := GetField(p, SenderHardware);
    cache.Insert(CacheData(ReadUint32(senderProtocol, 0), senderHardware));
    r := Ok(());
    if ReadUint16(p.data, OPERATION) == OP_REQUEST {
      var reply := BuildPacket(OP_REPLY, dev.address, U32(unicast), senderHardware, senderProtocol);
      r := dev.Transmit(reply.data, senderHardware, EtherFrame.ETHER_TYPE_ARP);
    }
  }

  method Resolve(dev: EtherFrame.EtherDevice, cache: ArpCache, unicast: uint32, ip: uint32)
    returns (r: Result<bytes>)
    requires |dev.address| == 6
    modifies dev
    ensures match Find(cache.cache, ip)
            case Some(mac) => r == Ok(mac) && dev.written == old(dev.written)
            case None => r == Err(ArpMiss) && dev.written == old(dev.written) + [RequestFrame(dev.address, unicast, ip)]
  {
    var c := cache.Select(ip);
    if c.Some? {
      return Ok(c.value.hardwareAddress);
    }
    var request := BuildPacket(OP_REQUEST, dev.address, U32(unicast), Zeros(6), U32(ip));
    var _ := dev.Transmit(request.data, EtherFrame.BROADCAST, EtherFrame.ETHER_TYPE_ARP);
    r := Err(ArpMiss);
  }
}
