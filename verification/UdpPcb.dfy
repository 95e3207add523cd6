/** The table of UDP control blocks as a value: first-match lookup with wildcards, allocation,
    and the changes of endpoints. */
module UdpPcb {
  import opened Wrappers
  import opened Bytes

  const IP_ADDR_ANY: uint32 := 0
  const TABLE_SIZE := 100
  const SOURCE_PORT_MIN: uint16 := 39584
  const SOURCE_PORT_MAX: uint16 := 65535

  datatype State = FREE | OPEN | CLOSING

  datatype IpEndpoint = IpEndpoint(addr: uint32, port: uint16)

  datatype UdpPcbPayload = UdpPcbPayload(data: bytes, endpoint: IpEndpoint)

  /** The value of one control block. */
  datatype Block = Block(id: int, state: State, endpoint: IpEndpoint, que: seq<UdpPcbPayload>, interrupted: bool)

  type Table = seq<Block>

  // ---------------------------------------------------------------- lookup

  predicate Matches(b: Block, ip: uint32, port: uint16) {
    b.state == OPEN && (b.endpoint.addr == IP_ADDR_ANY || b.endpoint.addr == ip) && b.endpoint.port == port
  }

  predicate Unmatched(t: Table, ip: uint32, port: uint16) {
    forall i :: 0 <= i < |t| ==> !Matches(t[i], ip, port)
  }

  /** The first block that matches. */
  function Select(t: Table, ip: uint32, port: uint16): (r: Option<nat>)
    ensures r.Some? ==>
              && r.value < |t| && Matches(t[r.value], ip, port)
              && forall i :: 0 <= i < r.value ==> !Matches(t[i], ip, port)
    ensures r.None? <==> Unmatched(t, ip, port)
  {
    if t == [] then None
    else if Matches(t[0], ip, port) then Some(0)
    else match Select(t[1..], ip, port) {
        case None =>
          assert forall i :: 1 <= i < |t| ==> t[i] == t[1..][i - 1];
          None
        case Some(i) =>
          assert forall k :: 1 <= k < |t| ==> t[k] == t[1..][k - 1];
          Some(i + 1)
      }
  }

  /** The lookup, spelled out: the first open block on the port that holds the address or 0.0.0.0. */
  lemma SelectExactly(t: Table, ip: uint32, port: uint16, i: nat)
    ensures Select(t, ip, port) == Some(i) <==>
            && i < |t| && t[i].state == OPEN && t[i].endpoint.port == port && t[i].endpoint.addr in {0, ip}
            && forall k :: 0 <= k < i ==>
                 !(t[k].state == OPEN && t[k].endpoint.port == port && t[k].endpoint.addr in {0, ip})
  {
    if i < |t| && Matches(t[i], ip, port) && forall k :: 0 <= k < i ==> !Matches(t[k], ip, port) {
      assert !Unmatched(t, ip, port);
    }
  }

  /** Nobody who would answer at `ip` holds the port. */
  predicate PortFree(t: Table, ip: uint32, port: int) {
    forall k :: 0 <= k < |t| ==>
      !(t[k].state == OPEN && t[k].endpoint.port == port && t[k].endpoint.addr in {0, ip})
  }

  lemma FreeIsUnmatched(t: Table, ip: uint32, port: uint16)
    ensures PortFree(t, ip, port) <==> Unmatched(t, ip, port)
  {
    assert forall k :: 0 <= k < |t| ==>
      (Matches(t[k], ip, port) <==>
       t[k].state == OPEN && t[k].endpoint.port == port && t[k].endpoint.addr in {0, ip});
  }

  // ---------------------------------------------------------------- changes to one block

  function SetEndpoint(t: Table, i: nat, e: IpEndpoint): Table
    requires i < |t|
  {
    t[i := t[i].(endpoint := e)]
  }

  function Push(t: Table, i: nat, m: UdpPcbPayload): Table
    requires i < |t|
  {
    t[i := t[i].(que := t[i].que + [m])]
  }

  function Pop(t: Table, i: nat): Table
    requires i < |t| && t[i].que != []
  {
    t[i := t[i].(que := t[i].que[1..])]
  }

  function Interrupt(t: Table, i: nat): Table
    requires i < |t|
  {
    t[i := t[i].(interrupted := true)]
  }

  // ---------------------------------------------------------------- allocation

  function FirstFree(t: Table): (r: Option<nat>)
    ensures r.Some? ==>
              && r.value < |t| && t[r.value].state == FREE
              && forall i :: 0 <= i < r.value ==> t[i].state != FREE
    ensures r.None? ==> forall i :: 0 <= i < |t| ==> t[i].state != FREE
  {
    if t == [] then None
    else if t[0].state == FREE then Some(0)
    else match FirstFree(t[1..]) {
        case None =>
          assert forall i :: 1 <= i < |t| ==> t[i] == t[1..][i - 1];
          None
        case Some(i) =>
          assert forall k :: 1 <= k < |t| ==> t[k] == t[1..][k - 1];
          Some(i + 1)
      }
  }

  function Alloc(t: Table): Table {
    match FirstFree(t)
    case None => t
    case Some(i) => t[i := t[i].(state := OPEN, id := i, endpoint := IpEndpoint(IP_ADDR_ANY, 0))]
  }

  /** Allocation gives the first free block its index and the endpoint 0.0.0.0:0, and leaves its
      queue, its flag and every other block as they were. */
  lemma AllocExactly(t: Table, i: nat)
    requires i < |t|
    ensures |Alloc(t)| == |t|
    ensures Alloc(t)[i] ==
            if t[i].state == FREE && forall k :: 0 <= k < i ==> t[k].state != FREE
            then Block(i, OPEN, IpEndpoint(0, 0), t[i].que, t[i].interrupted)
            else t[i]
  {
  }

  /** Exactly the first k blocks are open, each under its own index. */
  predicate OpenPrefix(t: Table, k: nat) {
    && k <= |t|
    && (forall i :: 0 <= i < k ==> t[i].state == OPEN && t[i].id == i)
    && (forall i :: k <= i < |t| ==> t[i].state == FREE)
  }

  /** Allocation opens block k, and fails if and only if all blocks are open. */
  lemma AllocKeepsOrder(t: Table, k: nat)
    requires OpenPrefix(t, k)
    ensures FirstFree(t) == if k < |t| then Some(k) else None
    ensures OpenPrefix(Alloc(t), if k < |t| then k + 1 else k)
  {
    var r := FirstFree(t);
    if k < |t| {
      assert t[k].state == FREE;
      assert r.Some? && r.value == k;
    }
  }

  /** Setting the flag on every open block. */
  function InterruptOpen(t: Table): Table {
    seq(|t|, i requires 0 <= i < |t| => if t[i].state == OPEN then t[i].(interrupted := true) else t[i])
  }

  /** Only flags of open blocks change. */
  lemma InterruptExactly(t: Table, i: nat)
    requires i < |t|
    ensures |InterruptOpen(t)| == |t|
    ensures InterruptOpen(t)[i] ==
            Block(t[i].id, t[i].state, t[i].endpoint, t[i].que, t[i].interrupted || t[i].state == OPEN)
  {
  }

  // ---------------------------------------------------------------- what a socket does to the table

  /** `bind`: claims the endpoint of block `id` if a lookup finds nobody there. */
  function Bind(t: Table, id: nat, ip: uint32, port: uint16): Table
    requires id < |t|
  {
    if Select(t, ip, port).Some? then t else SetEndpoint(t, id, IpEndpoint(ip, port))
  }

  /** A bind succeeds, whatever the block was bound to, if and only if no open block answers for
      the endpoint; it then writes that endpoint and nothing else. */
  lemma BindExactly(t: Table, id: nat, ip: uint32, port: uint16, i: nat)
    requires id < |t| && i < |t|
    ensures |Bind(t, id, ip, port)| == |t|
    ensures Bind(t, id, ip, port)[i] ==
            if i == id && PortFree(t, ip, port)
            then Block(t[i].id, t[i].state, IpEndpoint(ip, port), t[i].que, t[i].interrupted)
            else t[i]
  {
    FreeIsUnmatched(t, ip, port);
  }

  /** The address that `sendTo` sends from. */
  function LocalAddress(b: Block, unicast: uint32): uint32 {
    if b.endpoint.addr == IP_ADDR_ANY then unicast else b.endpoint.addr
  }

  /** `sendTo`: a block without a port is given an ephemeral one, its address stays. */
  function AssignPort(t: Table, id: nat, unicast: uint32): Table
    requires id < |t|
  {
    if t[id].endpoint.port != 0 then t
    else match FreePort(t, LocalAddress(t[id], unicast), SOURCE_PORT_MIN)
      case None => t
      case Some(p) => SetEndpoint(t, id, t[id].endpoint.(port := p))
  }

  // ---------------------------------------------------------------- uniqueness

  predicate SameEndpoint(a: Block, b: Block) {
    a.state == OPEN && b.state == OPEN && a.endpoint.port != 0 && a.endpoint == b.endpoint
  }

  /** No two open blocks share an address and a nonzero port. */
  predicate UniqueEndpoints(t: Table) {
    forall i, j :: 0 <= i < j < |t| ==> !SameEndpoint(t[i], t[j])
  }

  /** Claiming an endpoint for which a lookup finds nothing keeps endpoints unique. */
  lemma ClaimKeepsUnique(t: Table, i: nat, ip: uint32, e: IpEndpoint)
    requires i < |t| && UniqueEndpoints(t) && Unmatched(t, ip, e.port)
    requires e.addr == ip || e.addr == IP_ADDR_ANY
    ensures UniqueEndpoints(SetEndpoint(t, i, e))
  {
    var t' := SetEndpoint(t, i, e);
    forall a, b | 0 <= a < b < |t'|
      ensures !SameEndpoint(t'[a], t'[b])
    {
      assert !SameEndpoint(t[a], t[b]);
      assert !Matches(t[a], ip, e.port) && !Matches(t[b], ip, e.port);
    }
  }

  lemma AllocKeepsUnique(t: Table)
    requires UniqueEndpoints(t)
    ensures UniqueEndpoints(Alloc(t))
  {
    var t' := Alloc(t);
    forall a, b | 0 <= a < b < |t'|
      ensures !SameEndpoint(t'[a], t'[b])
    {
      assert !SameEndpoint(t[a], t[b]);
    }
  }

  lemma NoTwoShare(t: Table, i: nat, j: nat)
    requires UniqueEndpoints(t) && i < |t| && j < |t| && i != j
    ensures !SameEndpoint(t[i], t[j])
  {
    if j < i {
      assert !SameEndpoint(t[j], t[i]);
    }
  }

  /** At most one exact and one wildcard block answer for any destination. */
  lemma AtMostTwoMatch(t: Table, ip: uint32, port: uint16, i: nat, j: nat)
    requires UniqueEndpoints(t) && port != 0 && i < |t| && j < |t|
    requires Matches(t[i], ip, port) && Matches(t[j], ip, port)
    ensures i == j <==> (t[i].endpoint.addr == IP_ADDR_ANY <==> t[j].endpoint.addr == IP_ADDR_ANY)
  {
    if i != j {
      NoTwoShare(t, i, j);
    }
  }

  /** A block that holds (ip, port) is the one found, unless a wildcard block on the same
      port stands before it. */
  lemma OwnerIsSelected(t: Table, owner: nat, ip: uint32, port: uint16)
    requires UniqueEndpoints(t) && owner < |t| && port != 0
    requires t[owner].state == OPEN && t[owner].endpoint == IpEndpoint(ip, port)
    ensures Select(t, ip, port) == Some(owner) <==>
            forall i :: 0 <= i < owner ==> !(t[i].state == OPEN && t[i].endpoint == IpEndpoint(IP_ADDR_ANY, port))
  {
    assert Matches(t[owner], ip, port);
    forall i | 0 <= i < owner
      ensures Matches(t[i], ip, port) <==> t[i].state == OPEN && t[i].endpoint == IpEndpoint(IP_ADDR_ANY, port)
    {
      assert !SameEndpoint(t[i], t[owner]);
    }
    var s := Select(t, ip, port);
    if s != Some(owner) {
      assert s.Some? && s.value < owner;
    }
  }

  // ---------------------------------------------------------------- ephemeral ports

  /** The first port from p on that a lookup at `ip` does not find. */
  function FreePort(t: Table, ip: uint32, p: nat): (r: Option<uint16>)
    decreases |t|, 0x1_0000 - p
    ensures r.Some? ==> p <= r.value && Unmatched(t, ip, r.value)
    ensures r.Some? ==> forall q: uint16 :: p <= q < r.value ==> !Unmatched(t, ip, q)
    ensures r.None? ==> forall q: uint16 :: p <= q ==> !Unmatched(t, ip, q)
  {
    if p >= 0x1_0000 then None
    else if Select(t, ip, p).None? then Some(p)
    else FreePort(t, ip, p + 1)
  }

  function PortSet(t: Table): set<uint16> {
    if t == [] then {} else PortSet(t[..|t| - 1]) + {t[|t| - 1].endpoint.port}
  }

  lemma {:induction false} PortSetSize(t: Table)
    ensures |PortSet(t)| <= |t|
    ensures forall i :: 0 <= i < |t| ==> t[i].endpoint.port in PortSet(t)
  {
    if t != [] {
      PortSetSize(t[..|t| - 1]);
    }
  }

  function Ports(lo: uint16, n: nat): (r: set<uint16>)
    requires lo + n <= 0x1_0000
    ensures |r| == n
    ensures forall q: uint16 :: q in r <==> lo <= q < lo + n
  {
    if n == 0 then {} else Ports(lo, n - 1) + {lo + n - 1}
  }

  lemma SubsetSize<T>(a: set<T>, b: set<T>)
    requires a <= b
    ensures |a| <= |b|
  {
    assert |b| == |a| + |b - a| by { assert b == a + (b - a); }
  }

  /** Pigeonhole: while some block has port 0, the blocks cannot take one port each out of
      as many as there are blocks. */
  lemma SomePortIsFree(t: Table, ip: uint32, self: nat, lo: uint16)
    requires self < |t| && t[self].endpoint.port == 0
    requires 0 < lo && lo + |t| <= 0x1_0000
    ensures exists q: uint16 :: lo <= q < lo + |t| && Unmatched(t, ip, q)
  {
    var candidates := Ports(lo, |t|);
    if forall q: uint16 :: lo <= q < lo + |t| ==> !Unmatched(t, ip, q) {
      PortSetSize(t);
      forall q | q in candidates
        ensures q in PortSet(t) - {0}
      {
        assert !Unmatched(t, ip, q);
        var i :| 0 <= i < |t| && Matches(t[i], ip, q);
      }
      assert 0 in PortSet(t);
      SubsetSize(candidates, PortSet(t) - {0});
    }
  }

  /** A socket without a port is given one of the first hundred candidates. */
  lemma EphemeralPortExists(t: Table, ip: uint32, self: nat)
    requires |t| == TABLE_SIZE && self < |t| && t[self].endpoint.port == 0
    ensures var r := FreePort(t, ip, SOURCE_PORT_MIN);
            r.Some? && SOURCE_PORT_MIN <= r.value < SOURCE_PORT_MIN + TABLE_SIZE
  {
    SomePortIsFree(t, ip, self, SOURCE_PORT_MIN);
  }

  /** What sendTo does to the table: a block that has a port keeps it; another gets the lowest
      port from 39584 on that is free at the address it sends from, and keeps its own address. */
  lemma AssignExactly(t: Table, id: nat, unicast: uint32, i: nat)
    requires |t| == 100 && id < |t| && i < |t|
    ensures var t' := AssignPort(t, id, unicast);
            && |t'| == |t|
            && (i != id || t[id].endpoint.port != 0 ==> t'[i] == t[i])
            && (t[id].endpoint.port == 0 ==>
                  var local := if t[id].endpoint.addr == 0 then unicast else t[id].endpoint.addr;
                  var port := t'[id].endpoint.port;
                  && t'[id] == Block(t[id].id, t[id].state, IpEndpoint(t[id].endpoint.addr, port), t[id].que,
                                     t[id].interrupted)
                  && 39584 <= port < 39684 && PortFree(t, local, port)
                  && forall q :: 39584 <= q < port ==> !PortFree(t, local, q))
  {
    if t[id].endpoint.port == 0 {
      var local := LocalAddress(t[id], unicast);
      EphemeralPortExists(t, local, id);
      var port := FreePort(t, local, SOURCE_PORT_MIN).value;
      FreeIsUnmatched(t, local, port);
      forall q | 39584 <= q < port
        ensures !PortFree(t, local, q)
      {
        FreeIsUnmatched(t, local, q);
      }
    }
  }

  lemma BindKeepsUnique(t: Table, id: nat, ip: uint32, port: uint16)
    requires id < |t| && UniqueEndpoints(t)
    ensures UniqueEndpoints(Bind(t, id, ip, port))
  {
    if Select(t, ip, port).None? {
      ClaimKeepsUnique(t, id, ip, IpEndpoint(ip, port));
    }
  }

  lemma AssignKeepsUnique(t: Table, id: nat, unicast: uint32)
    requires id < |t| && UniqueEndpoints(t)
    ensures UniqueEndpoints(AssignPort(t, id, unicast))
  {
    var local := LocalAddress(t[id], unicast);
    var r := FreePort(t, local, SOURCE_PORT_MIN);
    if t[id].endpoint.port == 0 && r.Some? {
      ClaimKeepsUnique(t, id, local, t[id].endpoint.(port := r.value));
    }
  }

  /** After a successful bind the lookup finds that very block. */
  lemma BoundIsSelected(t: Table, id: nat, ip: uint32, port: uint16)
    requires id < |t| && t[id].state == OPEN && Unmatched(t, ip, port)
    ensures Select(SetEndpoint(t, id, IpEndpoint(ip, port)), ip, port) == Some(id)
  {
    var t' := SetEndpoint(t, id, IpEndpoint(ip, port));
    assert Matches(t'[id], ip, port);
    assert forall i :: 0 <= i < |t| && i != id ==> t'[i] == t[i];
  }

  /** When another block takes an endpoint that nobody holds, the owner of (ip, port) loses its
      traffic if and only if that block stands before it and takes (0.0.0.0, port). */
  lemma LosesTrafficExactly(t: Table, owner: nat, ip: uint32, port: uint16, i: nat, e: IpEndpoint)
    requires UniqueEndpoints(t) && owner < |t| && i < |t| && i != owner && port != 0
    requires t[owner].state == OPEN && t[owner].endpoint == IpEndpoint(ip, port) && Select(t, ip, port) == Some(owner)
    requires t[i].state == OPEN && UniqueEndpoints(SetEndpoint(t, i, e))
    ensures Select(SetEndpoint(t, i, e), ip, port) != Some(owner) <==> i < owner && e == IpEndpoint(IP_ADDR_ANY, port)
  {
    OwnerIsSelected(t, owner, ip, port);
    OwnerIsSelected(SetEndpoint(t, i, e), owner, ip, port);
  }

  /** Both ways of losing it occur: a bind to 0.0.0.0 succeeds beside a bound (ip, port), and an
      ephemeral port is drawn at the interface address, not at the owner's. */
  lemma TrafficCanBeLost(t: Table, ip: uint32, unicast: uint32)
    requires |t| == TABLE_SIZE && OpenPrefix(t, 2) && ip != IP_ADDR_ANY && ip != unicast
    requires t[0].endpoint == IpEndpoint(IP_ADDR_ANY, 0) && t[1].endpoint == IpEndpoint(ip, SOURCE_PORT_MIN)
    ensures Select(t, ip, SOURCE_PORT_MIN) == Some(1)
    ensures Select(Bind(t, 0, IP_ADDR_ANY, SOURCE_PORT_MIN), ip, SOURCE_PORT_MIN) == Some(0)
    ensures Select(AssignPort(t, 0, unicast), ip, SOURCE_PORT_MIN) == Some(0)
  {
    assert Matches(t[1], ip, SOURCE_PORT_MIN) && !Matches(t[0], ip, SOURCE_PORT_MIN);
    assert Unmatched(t, IP_ADDR_ANY, SOURCE_PORT_MIN) && Unmatched(t, unicast, SOURCE_PORT_MIN);
    assert FreePort(t, unicast, SOURCE_PORT_MIN) == Some(SOURCE_PORT_MIN);
    var b, a := Bind(t, 0, IP_ADDR_ANY, SOURCE_PORT_MIN), AssignPort(t, 0, unicast);
    assert Matches(b[0], ip, SOURCE_PORT_MIN) && Matches(a[0], ip, SOURCE_PORT_MIN);
  }
}
