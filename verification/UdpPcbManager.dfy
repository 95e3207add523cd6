/** The manager object, its control blocks, and the sockets that work on them. Every method
    is tied to the function on table values that says what it does. */
module UdpPcbManager {
  import opened Wrappers
  import opened Bytes
  import opened UdpPcb

  class ControlBlock {
    var id: int
    var state: State
    var que: seq<UdpPcbPayload>
    var endpoint: IpEndpoint
    var interrupted: bool

    /** The endpoint is left as it comes; it is not looked at before the block is open. */
    constructor ()
      ensures id == -1 && state == FREE && que == [] && !interrupted
    {
      id, state, que, interrupted := -1, FREE, [], false;
    }

    ghost function Value(): Block
      reads this
    {
      Block(id, state, endpoint, que, interrupted)
    }
  }

  class Manager {
    const udpPcbList: seq<ControlBlock>

    ghost predicate Valid() {
      && |udpPcbList| == TABLE_SIZE
      && forall i, j :: 0 <= i < j < |udpPcbList| ==> udpPcbList[i] != udpPcbList[j]
    }

    ghost function Table(): (t: Table)
      reads udpPcbList
      ensures |t| == |udpPcbList| && forall i :: 0 <= i < |t| ==> t[i] == udpPcbList[i].Value()
    {
      seq(|udpPcbList|, i requires 0 <= i < |udpPcbList| reads udpPcbList => udpPcbList[i].Value())
    }

    constructor ()
      ensures Valid() && fresh(udpPcbList)
      ensures OpenPrefix(Table(), 0)
      ensures forall b :: b in udpPcbList ==> b.que == [] && !b.interrupted
    {
      var list: seq<ControlBlock> := [];
      while |list| < TABLE_SIZE
        invariant |list| <= TABLE_SIZE && fresh(list)
        invariant forall i, j :: 0 <= i < j < |list| ==> list[i] != list[j]
        invariant forall b :: b in list ==> b.state == FREE && b.que == [] && !b.interrupted
      {
        var b := new ControlBlock();
        list := list + [b];
      }
      udpPcbList := list;
    }

    method Alloc() returns (r: Option<ControlBlock>)
      requires Valid()
      modifies udpPcbList
      ensures Table() == UdpPcb.Alloc(old(Table()))
      ensures match FirstFree(old(Table()))
              case None => r == None
              case Some(i) => r == Some(udpPcbList[i])
    {
      var i := 0;
      while i < |udpPcbList|
        invariant 0 <= i <= |udpPcbList|
        invariant forall k :: 0 <= k < i ==> udpPcbList[k].state != FREE
        invariant Table() == old(Table())
      {
        var elm := udpPcbList[i];
        if elm.state == FREE {
          assert FirstFree(old(Table())) == Some(i) by { assert old(Table())[i].state == FREE; }
          elm.state := OPEN;
          elm.id := i;
          elm.endpoint := IpEndpoint(IP_ADDR_ANY, 0);
          return Some(elm);
        }
        i := i + 1;
      }
      r := None;
    }

    method Select(ip: uint32, port: uint16) returns (r: Option<ControlBlock>)
      ensures match UdpPcb.Select(Table(), ip, port)
              case None => r == None
              case Some(i) => r == Some(udpPcbList[i])
      ensures r.None? <==> Unmatched(Table(), ip, port)
    {
      var i := 0;
      while i < |udpPcbList|
        invariant 0 <= i <= |udpPcbList|
        invariant forall k :: 0 <= k < i ==> !Matches(Table()[k], ip, port)
      {
        var elm := udpPcbList[i];
        if elm.state == OPEN && (elm.endpoint.addr == IP_ADDR_ANY || elm.endpoint.addr == ip)
           && elm.endpoint.port == port {
          assert Matches(Table()[i], ip, port);
          return Some(elm);
        }
        i := i + 1;
      }
      r := None;
    }

    method InterruptAll()
      requires Valid()
      modifies udpPcbList
      ensures Table() == InterruptOpen(old(Table()))
    {
      var i := 0;
      while i < |udpPcbList|
        invariant 0 <= i <= |udpPcbList|
        invariant forall k :: 0 <= k < i ==> Table()[k] == InterruptOpen(old(Table()))[k]
        invariant forall k :: i <= k < |udpPcbList| ==> Table()[k] == old(Table())[k]
      {
        assert Table()[i] == old(Table())[i];
        if udpPcbList[i].state == OPEN {
          udpPcbList[i].interrupted := true;
        }
        i := i + 1;
      }
    }
  }

  method Copy(src: bytes, buf: array<byte>)
    requires |src| <= buf.Length
    modifies buf
    ensures buf[..] == src + old(buf[..])[|src|..]
  {
    var i := 0;
    while i < |src|
      invariant 0 <= i <= |src|
      invariant forall k :: 0 <= k < i ==> buf[k] == src[k]
      invariant forall k :: i <= k < buf.Length ==> buf[k] == old(buf[k])
    {
      buf[i] := src[i];
      i := i + 1;
    }
  }

  class UdpSocket {
    const pcbId: nat

    constructor (pcbId: nat)
      ensures this.pcbId == pcbId
    {
      this.pcbId := pcbId;
    }

    static method Open(mgr: Manager) returns (r: Option<UdpSocket>)
      requires mgr.Valid()
      modifies mgr.udpPcbList
      ensures mgr.Table() == UdpPcb.Alloc(old(mgr.Table()))
      ensures r.Some? <==> FirstFree(old(mgr.Table())).Some?
      ensures r.Some? ==> FirstFree(old(mgr.Table())) == Some(r.value.pcbId)
                          && mgr.Table()[r.value.pcbId].state == OPEN
    {
      var pcb := mgr.Alloc();
      if pcb.None? {
        return None;
      }
      assert mgr.Table()[FirstFree(old(mgr.Table())).value] == pcb.value.Value();
      var s := new UdpSocket(pcb.value.id);
      r := Some(s);
    }

    method Bind(mgr: Manager, ip: uint32, port: uint16) returns (ok: bool)
      requires mgr.Valid() && pcbId < TABLE_SIZE
      modifies mgr.udpPcbList
      ensures mgr.Table() == UdpPcb.Bind(old(mgr.Table()), pcbId, ip, port)
      ensures ok <==> Unmatched(old(mgr.Table()), ip, port)
    {
      var udpPcb := mgr.Select(ip, port);
      if udpPcb.Some? {
        return false;
      }
      var pcb := mgr.udpPcbList[pcbId];
      pcb.endpoint := IpEndpoint(ip, port);
      ok := true;
    }

    /** The part of `sendTo` that is done under the locks: it settles the endpoint to send from. */
    method LocalEndpoint(mgr: Manager, unicast: uint32) returns (r: Result<IpEndpoint>)
      requires mgr.Valid() && pcbId < TABLE_SIZE
      modifies mgr.udpPcbList
      ensures old(mgr.Table()[pcbId].state) != OPEN ==> r == Err(PcbNotFound) && mgr.Table() == old(mgr.Table())
      ensures old(mgr.Table()[pcbId].state) == OPEN ==>
                && mgr.Table() == AssignPort(old(mgr.Table()), pcbId, unicast)
                && r == Ok(IpEndpoint(LocalAddress(old(mgr.Table()[pcbId]), unicast), mgr.Table()[pcbId].endpoint.port))
                && r.value.port != 0
    {
      var pcb := mgr.udpPcbList[pcbId];
      if pcb.state != OPEN {
        return Err(PcbNotFound);
      }
      var local := if pcb.endpoint.addr == IP_ADDR_ANY then unicast else pcb.endpoint.addr;
      if pcb.endpoint.port == 0 {
        var p := SearchPort(mgr, local);
        pcb.endpoint := pcb.endpoint.(port := p);
      }
      r := Ok(IpEndpoint(local, pcb.endpoint.port));
    }

    /** The search loop. Its 16-bit counter is always at most SOURCE_PORT_MAX, so only the
        pigeonhole argument makes it stop; no failure branch is ever taken after it. */
    method SearchPort(mgr: Manager, local: uint32) returns (port: uint16)
      requires mgr.Valid() && pcbId < TABLE_SIZE && mgr.Table()[pcbId].endpoint.port == 0
      ensures FreePort(mgr.Table(), local, SOURCE_PORT_MIN) == Some(port)
      ensures SOURCE_PORT_MIN <= port < SOURCE_PORT_MIN + TABLE_SIZE
    {
      EphemeralPortExists(mgr.Table(), local, pcbId);
      port := SearchFrom(mgr, local, SOURCE_PORT_MIN, FreePort(mgr.Table(), local, SOURCE_PORT_MIN).value);
    }

    method SearchFrom(mgr: Manager, local: uint32, first: uint16, ghost free: uint16) returns (port: uint16)
      requires first <= free && Unmatched(mgr.Table(), local, free)
      requires forall q: uint16 :: first <= q < free ==> !Unmatched(mgr.Table(), local, q)
      ensures port == free
    {
      port := first;
      while port <= SOURCE_PORT_MAX
        invariant first <= port <= free
        decreases free - port
      {
        var tmpPcb := mgr.Select(local, port);
        if tmpPcb.None? {
          break;
        }
        port := (port + 1) % 0x1_0000;
      }
    }

    /** The part of `recvFrom` after its wait: -1 when interrupted, else the oldest datagram. */
    method RecvFrom(mgr: Manager, buf: array<byte>) returns (n: int, from: IpEndpoint)
      requires mgr.Valid() && pcbId < TABLE_SIZE
      requires var b := mgr.udpPcbList[pcbId]; b.interrupted || (b.que != [] && |b.que[0].data| <= buf.Length)
      modifies mgr.udpPcbList, buf
      ensures old(mgr.Table()[pcbId].interrupted) ==>
                n == -1 && mgr.Table() == old(mgr.Table()) && buf[..] == old(buf[..])
      ensures !old(mgr.Table()[pcbId].interrupted) ==>
                var m := old(mgr.Table())[pcbId].que[0];
                && n == |m.data| && from == m.endpoint
                && buf[..] == m.data + old(buf[..])[n..]
                && mgr.Table() == Pop(old(mgr.Table()), pcbId)
    {
      var pcb := mgr.udpPcbList[pcbId];
      from := IpEndpoint(0, 0);
      if pcb.interrupted {
        return -1, from;
      }
      var payload := pcb.que[0];
      Copy(payload.data, buf);
      assert mgr.Table() == old(mgr.Table());
      pcb.que := pcb.que[1..];
      n, from := |payload.data|, payload.endpoint;
    }
  }
}
