/** Hosts that all run the ARP handler, and the frames between them. A frame once sent stays in
    flight: it may be delivered never, late, or many times, to whomever. */
module ArpNetwork {
  import opened Wrappers
  import opened Bytes
  import opened ArpData
  import opened ArpCache
  import opened Arp
  import EtherFrame

  datatype Host = Host(ip: uint32, mac: bytes)

  datatype Net = Net(hosts: seq<Host>, caches: seq<Entries>, frames: set<bytes>)

  predicate WellFormed(n: Net) {
    && |n.caches| == |n.hosts|
    && (forall i :: 0 <= i < |n.hosts| ==> |n.hosts[i].mac| == 6)
    && (forall i, j :: 0 <= i < j < |n.hosts| ==> n.hosts[i].ip != n.hosts[j].ip)
  }

  predicate Init(n: Net) {
    WellFormed(n) && n.frames == {} && forall h :: 0 <= h < |n.caches| ==> n.caches[h] == []
  }

  /** Host h resolves an address: a miss sends a request. */
  function Ask(n: Net, h: nat, ip: uint32): Net
    requires WellFormed(n) && h < |n.hosts|
  {
    if Find(n.caches[h], ip).Some? then n
    else n.(frames := n.frames + {RequestFrame(n.hosts[h].mac, n.hosts[h].ip, ip)})
  }

  /** Frames that reach the ARP handler with all their fields. */
  predicate IsArp(f: bytes) {
    |f| >= EtherFrame.HEADER_SIZE && ReadUint16(f, EtherFrame.TYPE_OFFSET) == EtherFrame.ETHER_TYPE_ARP
    && WellSized(EtherFrame.Body(f))
  }

  /** Host h handles a frame; an exception leaves everything as it is. */
  function Deliver(n: Net, h: nat, f: bytes): Net
    requires WellFormed(n) && h < |n.hosts| && IsArp(f)
  {
    var p := EtherFrame.Body(f);
    if Refusal(p, n.hosts[h].ip).Some? then n
    else
      n.(caches := n.caches[h := Create(n.caches[h], Sender(p))],
         frames := n.frames + (set g | g in Answer(n.hosts[h].mac, n.hosts[h].ip, p)))
  }

  /** The frame is addressed to the host or to everybody. */
  predicate Reaches(f: bytes, h: Host) {
    |f| >= 6 && (f[..6] == h.mac || f[..6] == [0xFF, 0xFF, 0xFF, 0xFF, 0xFF, 0xFF])
  }

  /** Delivery by a network that takes frames only to whom they are addressed to. */
  function Switched(n: Net, h: nat, f: bytes): Net
    requires WellFormed(n) && h < |n.hosts| && IsArp(f)
  {
    if Reaches(f, n.hosts[h]) then Deliver(n, h, f) else n
  }

  ghost predicate Step(n: Net, n': Net) {
    WellFormed(n) &&
    ((exists h: nat, ip: uint32 :: h < |n.hosts| && n' == Ask(n, h, ip)) ||
     (exists h: nat, f: bytes :: h < |n.hosts| && f in n.frames && IsArp(f) && n' == Deliver(n, h, f)))
  }

  ghost predicate Run(run: seq<Net>) {
    |run| > 0 && Init(run[0]) && forall i :: 0 < i < |run| ==> Step(run[i - 1], run[i])
  }

  // ---------------------------------------------------------------- safety

  ghost predicate TruePair(hosts: seq<Host>, c: CacheData) {
    exists i :: 0 <= i < |hosts| && hosts[i] == Host(c.protocolAddress, c.hardwareAddress)
  }

  ghost predicate TrueFrame(hosts: seq<Host>, f: bytes) {
    IsArp(f) && ProtocolLength(EtherFrame.Body(f)) == 4 && HardwareLength(EtherFrame.Body(f)) == 6
    && TruePair(hosts, Sender(EtherFrame.Body(f)))
  }

  /** Every frame in flight carries a true sender pair, and every cache entry is one. */
  ghost predicate Truthful(n: Net) {
    && WellFormed(n)
    && (forall f :: f in n.frames ==> TrueFrame(n.hosts, f))
    && (forall h :: 0 <= h < |n.caches| ==> forall c :: c in n.caches[h] ==> TruePair(n.hosts, c))
  }

  /** What is read from a frame that a host has built. */
  lemma SentFrame(dst: bytes, mac: bytes, op: uint16, ip: uint32, tha: bytes, tpa: bytes)
    requires |dst| == |mac| == |tha| == 6 && |tpa| == 4
    ensures var f := EtherFrame.Frame(dst, mac, EtherFrame.ETHER_TYPE_ARP, Packet(op, mac, U32(ip), tha, tpa));
            var p := EtherFrame.Body(f);
            && IsArp(f) && ProtocolLength(p) == 4 && HardwareLength(p) == 6
            && ReadUint16(p, PROTOCOL_TYPE) == ARP_PROTOCOL_TYPE_IP && ReadUint16(p, OPERATION) == op
            && Sender(p) == CacheData(ip, mac)
            && Get(p, SenderProtocol) == U32(ip) && Get(p, TargetProtocol) == tpa
  {
    var b := Packet(op, mac, U32(ip), tha, tpa);
    EtherFrame.FrameRoundTrip(dst, mac, EtherFrame.ETHER_TYPE_ARP, b);
    PacketFields(op, mac, U32(ip), tha, tpa, EtherFrame.Padding(b));
    ReadU32(ip);
  }

  lemma ReadU32(v: uint32)
    ensures ReadUint32(U32(v), 0) == v
  {
    ReadBack32([], v, []);
    assert [] + U32(v) + [] == U32(v);
  }

  lemma AskTruthful(n: Net, h: nat, ip: uint32)
    requires Truthful(n) && h < |n.hosts|
    ensures Truthful(Ask(n, h, ip)) && Ask(n, h, ip).hosts == n.hosts
  {
    SentFrame(EtherFrame.BROADCAST, n.hosts[h].mac, OP_REQUEST, n.hosts[h].ip, Zeros(6), U32(ip));
    assert n.hosts[h] == Host(n.hosts[h].ip, n.hosts[h].mac);
    assert TrueFrame(n.hosts, RequestFrame(n.hosts[h].mac, n.hosts[h].ip, ip));
  }

  lemma AnswerTrue(hosts: seq<Host>, h: nat, p: bytes)
    requires h < |hosts| && |hosts[h].mac| == 6 && WellSized(p) && HardwareLength(p) == 6 && ProtocolLength(p) == 4
    ensures forall g :: g in Answer(hosts[h].mac, hosts[h].ip, p) ==> TrueFrame(hosts, g)
  {
    var sha := Get(p, SenderHardware);
    SentFrame(sha, hosts[h].mac, OP_REPLY, hosts[h].ip, sha, Get(p, SenderProtocol));
    assert hosts[h] == Host(hosts[h].ip, hosts[h].mac);
  }

  lemma DeliverTruthful(n: Net, h: nat, f: bytes)
    requires Truthful(n) && h < |n.hosts| && f in n.frames
    ensures IsArp(f) && Truthful(Deliver(n, h, f)) && Deliver(n, h, f).hosts == n.hosts
  {
    assert TrueFrame(n.hosts, f);
    AnswerTrue(n.hosts, h, EtherFrame.Body(f));
  }

  lemma {:induction false} RunTruthful(run: seq<Net>, i: nat)
    requires Run(run) && i < |run|
    ensures Truthful(run[i]) && run[i].hosts == run[0].hosts
  {
    if i > 0 {
      RunTruthful(run, i - 1);
      var n, n' := run[i - 1], run[i];
      assert Step(n, n');
      if h: nat, ip: uint32 :| h < |n.hosts| && n' == Ask(n, h, ip) {
        AskTruthful(n, h, ip);
      } else {
        var h: nat, f: bytes :| h < |n.hosts| && f in n.frames && IsArp(f) && n' == Deliver(n, h, f);
        DeliverTruthful(n, h, f);
      }
    }
  }

  lemma {:induction false} FindIn(cache: Entries, ip: uint32)
    ensures Find(cache, ip).Some? ==> CacheData(ip, Find(cache, ip).value) in cache
  {
    if cache != [] && cache[0].protocolAddress != ip {
      FindIn(cache[1..], ip);
    }
  }

  lemma FoundIsTrue(n: Net, h: nat, j: nat)
    requires Truthful(n) && h < |n.hosts| && j < |n.hosts|
    ensures var r := Find(n.caches[h], n.hosts[j].ip); r == None || r == Some(n.hosts[j].mac)
  {
    FindIn(n.caches[h], n.hosts[j].ip);
  }

  /** ARP safety: in every run, whatever host h's cache returns for host j's address is host
      j's own 6-byte MAC, and it returns nothing for addresses that no host has. */
  lemma CachesNeverLie(run: seq<Net>, i: nat, h: nat, ip: uint32)
    requires Run(run) && i < |run| && h < |run[i].caches|
    ensures var r := Find(run[i].caches[h], ip);
            r.Some? ==> |r.value| == 6 && exists j :: 0 <= j < |run[0].hosts| && run[0].hosts[j] == Host(ip, r.value)
    ensures forall j :: 0 <= j < |run[0].hosts| && run[0].hosts[j].ip == ip && Find(run[i].caches[h], ip).Some? ==>
              Find(run[i].caches[h], ip).value == run[0].hosts[j].mac
  {
    RunTruthful(run, i);
    FindIn(run[i].caches[h], ip);
    forall j: nat | j < |run[0].hosts| && run[0].hosts[j].ip == ip
      ensures Find(run[i].caches[h], ip).Some? ==> Find(run[i].caches[h], ip).value == run[0].hosts[j].mac
    {
      FoundIsTrue(run[i], h, j);
    }
  }

  // ---------------------------------------------------------------- one exchange

  lemma CreateFinds(cache: Entries, c: CacheData)
    ensures Find(Create(cache, c), c.protocolAddress).Some?
    ensures forall ip :: Find(cache, ip).Some? ==> Find(Create(cache, c), ip) == Find(cache, ip)
  {
    FindAppend(cache, c, c.protocolAddress);
    forall ip | Find(cache, ip).Some?
      ensures Find(Create(cache, c), ip) == Find(cache, ip)
    {
      FindAppend(cache, c, ip);
    }
  }

  /** Delivery of a true frame addressed to h leaves its sender in h's cache. */
  lemma DeliverResolves(n: Net, h: nat, f: bytes, j: nat)
    requires Truthful(n) && h < |n.hosts| && f in n.frames && j < |n.hosts|
    requires IsArp(f) && Refusal(EtherFrame.Body(f), n.hosts[h].ip).None?
    requires Sender(EtherFrame.Body(f)) == CacheData(n.hosts[j].ip, n.hosts[j].mac)
    ensures Truthful(Deliver(n, h, f)) && Deliver(n, h, f).hosts == n.hosts
    ensures Find(Deliver(n, h, f).caches[h], n.hosts[j].ip) == Some(n.hosts[j].mac)
  {
    DeliverTruthful(n, h, f);
    CreateFinds(n.caches[h], Sender(EtherFrame.Body(f)));
    FoundIsTrue(Deliver(n, h, f), h, j);
  }

  /** Where the two frames of an exchange go: the request to everybody, the reply to the asker. */
  lemma WhoIsReached(a: Host, b: Host, h: Host)
    requires |a.mac| == |b.mac| == 6
    ensures Reaches(RequestFrame(a.mac, a.ip, b.ip), h) && IsArp(RequestFrame(a.mac, a.ip, b.ip))
    ensures var reply := ReplyFrame(b.mac, b.ip, EtherFrame.Body(RequestFrame(a.mac, a.ip, b.ip)));
            Reaches(reply, h) <==> h.mac == a.mac || a.mac == [0xFF, 0xFF, 0xFF, 0xFF, 0xFF, 0xFF]
  {
    RequestBytes(a.mac, a.ip, b.ip);
    SentFrame(EtherFrame.BROADCAST, a.mac, OP_REQUEST, a.ip, Zeros(6), U32(b.ip));
    var p := EtherFrame.Body(RequestFrame(a.mac, a.ip, b.ip));
    assert At(p, 4) == 6 && At(p, 5) == 4;
    ReplyBytes(b.mac, b.ip, p);
    SenderExactly(p);
  }

  /** From any truthful network: a misses b's address and asks; the network takes the request and
      the reply to whom they are addressed to. Now a resolves b and b resolves a, each to the
      true MAC. */
  lemma ExchangeResolves(n: Net, a: nat, b: nat)
    requires Truthful(n) && a < |n.hosts| && b < |n.hosts| && a != b
    requires Find(n.caches[a], n.hosts[b].ip).None?
    ensures var ha, hb := n.hosts[a], n.hosts[b];
            var request := RequestFrame(ha.mac, ha.ip, hb.ip);
            var n1 := Ask(n, a, hb.ip);
            && WellFormed(n1) && IsArp(request) && request in n1.frames
            && var n2 := Switched(n1, b, request);
            && var reply := ReplyFrame(hb.mac, hb.ip, EtherFrame.Body(request));
            && WellFormed(n2) && IsArp(reply) && reply in n2.frames
            && var n3 := Switched(n2, a, reply);
            && Find(n3.caches[a], hb.ip) == Some(hb.mac) && Find(n3.caches[b], ha.ip) == Some(ha.mac)
  {
    var ha, hb := n.hosts[a], n.hosts[b];
    WhoIsReached(ha, hb, hb);
    WhoIsReached(ha, hb, ha);
    var request, n1 := RequestFrame(ha.mac, ha.ip, hb.ip), Ask(n, a, hb.ip);
    AskTruthful(n, a, hb.ip);
    SentFrame(EtherFrame.BROADCAST, ha.mac, OP_REQUEST, ha.ip, Zeros(6), U32(hb.ip));
    var p := EtherFrame.Body(request);
    ReadU32(hb.ip);
    DeliverResolves(n1, b, request, a);
    var n2, reply := Deliver(n1, b, request), ReplyFrame(hb.mac, hb.ip, p);
    assert reply in Answer(hb.mac, hb.ip, p);
    SentFrame(Get(p, SenderHardware), hb.mac, OP_REPLY, hb.ip, Get(p, SenderHardware), Get(p, SenderProtocol));
    ReadU32(ha.ip);
    DeliverResolves(n2, a, reply, b);
  }

  /** The exchange puts two frames on the wire and no more: a reply is not answered. */
  lemma ExchangeIsQuiet(n: Net, a: nat, b: nat)
    requires Truthful(n) && a < |n.hosts| && b < |n.hosts| && a != b
    requires Find(n.caches[a], n.hosts[b].ip).None?
    ensures var ha, hb := n.hosts[a], n.hosts[b];
            var request := RequestFrame(ha.mac, ha.ip, hb.ip);
            && IsArp(request)
            && var reply := ReplyFrame(hb.mac, hb.ip, EtherFrame.Body(request));
            && IsArp(reply)
            && Answer(hb.mac, hb.ip, EtherFrame.Body(request)) == [reply]
            && Answer(ha.mac, ha.ip, EtherFrame.Body(reply)) == []
  {
    var ha, hb := n.hosts[a], n.hosts[b];
    SentFrame(EtherFrame.BROADCAST, ha.mac, OP_REQUEST, ha.ip, Zeros(6), U32(hb.ip));
    var p := EtherFrame.Body(RequestFrame(ha.mac, ha.ip, hb.ip));
    SentFrame(Get(p, SenderHardware), hb.mac, OP_REPLY, hb.ip, Get(p, SenderHardware), Get(p, SenderProtocol));
  }
}
