/** Calls that nothing disturbs: step by step they do to the table what the functions on tables
    say in one. And a run, made of such calls, in which a socket loses its traffic. */
module UdpCalls {
  import opened Wrappers
  import opened Bytes
  import opened UdpPcb
  import opened UdpThreads

  /** Nobody but thread u is inside a call. */
  ghost predicate Alone(s: Sys, u: nat) {
    Inv(s) && u < |s.threads| && forall v :: 0 <= v < |s.threads| && v != u ==> s.threads[v] == Idle
  }

  ghost predicate Connects(run: seq<Sys>, s: Sys, s': Sys) {
    Path(run) && run[0] == s && run[|run| - 1] == s'
  }

  /** Some run leads from s to s'. */
  ghost predicate Leads(s: Sys, s': Sys) {
    exists run :: Connects(run, s, s')
  }

  lemma LeadsOn(s: Sys, s': Sys, s'': Sys)
    requires Leads(s, s') && Leads(s', s'')
    ensures Leads(s, s'')
  {
    var a :| Connects(a, s, s');
    var b :| Connects(b, s', s'');
    var run := a + b[1..];
    forall i | 0 < i < |run|
      ensures SomeStep(run[i - 1], run[i])
    {
      if i >= |a| {
        assert run[i] == b[i - |a| + 1] && run[i - 1] == b[i - |a|];
      }
    }
    assert Connects(run, s, s'');
  }

  lemma LeadsByStep(s: Sys, s': Sys, u: nat)
    requires Step(s, s', u)
    ensures Leads(s, s')
  {
    assert SomeStep(s, s');
    assert Connects([s, s'], s, s');
  }

  /** A thread that is alone never waits for a lock. */
  lemma AloneIsAvailable(s: Sys, u: nat)
    requires Alone(s, u) && s.threads[u] != Idle
    ensures Available(s, s.threads[u])
  {
    var pc := s.threads[u];
    match Acquires(pc)
    case None =>
    case Some(Mgr) =>
      if s.mgr.Some? {
        assert Owns(s, s.mgr.value);
        LockOrder(pc, 0);
      }
    case Some(Blk(i)) =>
      if s.held[i].Some? {
        assert OwnsBlock(s, s.held[i].value, i);
        LockOrder(pc, i);
      }
  }

  lemma StepAlone(s: Sys, u: nat) returns (s': Sys)
    requires Alone(s, u) && s.threads[u] != Idle
    ensures Leads(s, s') && Alone(s', u) && s'.unicast == s.unicast
    ensures s'.threads[u] == Next(s.threads[u], s.table) && s'.table == Effect(s.threads[u], s.table, s.unicast)
    ensures InRecv(s.threads[u]) ==> s'.pushed == s.pushed
    ensures !InRecv(s.threads[u]) ==> s'.popped == s.popped
  {
    AloneIsAvailable(s, u);
    s' := Exec(s, u);
    StepInv(s, s', u);
    LeadsByStep(s, s', u);
  }

  // ---------------------------------------------------------------- from one position to the next

  /** A thread's position, and the table as it finds it there. */
  datatype Config = Config(pc: Pc, t: Table)

  predicate Goes(c: Config, c': Config, unicast: uint32) {
    c.pc != Idle && InRange(c.pc, |c.t|) && c' == Config(Next(c.pc, c.t), Effect(c.pc, c.t, unicast))
  }

  predicate GoesAt(cs: seq<Config>, k: nat, unicast: uint32)
    requires 0 < k < |cs|
  {
    Goes(cs[k - 1], cs[k], unicast)
  }

  ghost predicate Course(cs: seq<Config>, unicast: uint32) {
    |cs| > 0 && forall k :: 0 < k < |cs| ==> GoesAt(cs, k, unicast)
  }

  /** The course of a call that starts at c and leaves the table r. */
  ghost predicate EndsWith(cs: seq<Config>, c: Config, r: Table, unicast: uint32) {
    Course(cs, unicast) && cs[0] == c && cs[|cs| - 1] == Config(Idle, r)
  }

  /** By its own steps alone, a thread at `pc` ends its call and leaves the table r. */
  ghost predicate Finishes(pc: Pc, t: Table, unicast: uint32, r: Table) {
    exists cs :: EndsWith(cs, Config(pc, t), r, unicast)
  }

  lemma Last(pc: Pc, t: Table, unicast: uint32)
    requires Goes(Config(pc, t), Config(Idle, t), unicast)
    ensures Finishes(pc, t, unicast, t)
  {
    assert EndsWith([Config(pc, t), Config(Idle, t)], Config(pc, t), t, unicast);
  }

  /** One step earlier. */
  lemma Before(pc: Pc, t: Table, unicast: uint32, pc': Pc, t': Table, r: Table)
    requires Goes(Config(pc, t), Config(pc', t'), unicast) && Finishes(pc', t', unicast, r)
    ensures Finishes(pc, t, unicast, r)
  {
    var cs :| EndsWith(cs, Config(pc', t'), r, unicast);
    var longer := [Config(pc, t)] + cs;
    forall k | 0 < k < |longer|
      ensures GoesAt(longer, k, unicast)
    {
      if k > 1 {
        assert GoesAt(cs, k - 1, unicast);
      }
    }
    assert EndsWith(longer, Config(pc, t), r, unicast);
  }

  lemma CourseRest(cs: seq<Config>, unicast: uint32)
    requires Course(cs, unicast) && |cs| > 1
    ensures Course(cs[1..], unicast) && Goes(cs[0], cs[1], unicast)
  {
    forall k | 0 < k < |cs[1..]|
      ensures GoesAt(cs[1..], k, unicast)
    {
      assert GoesAt(cs, k + 1, unicast);
    }
    assert GoesAt(cs, 1, unicast);
  }

  /** Calls of recvFrom and other calls keep to themselves. */
  lemma StaysInRecv(pc: Pc, t: Table)
    requires !pc.Idle? && InRange(pc, |t|)
    ensures InRecv(pc) ==> InRecv(Next(pc, t)) || Next(pc, t).Idle?
    ensures InRecv(Next(pc, t)) ==> InRecv(pc)
  {
  }

  lemma {:induction false} FollowAlone(s: Sys, u: nat, cs: seq<Config>, r: Table) returns (s': Sys)
    requires Alone(s, u) && EndsWith(cs, Config(s.threads[u], s.table), r, s.unicast)
    ensures Leads(s, s') && Alone(s', u) && s'.unicast == s.unicast && s'.threads[u] == Idle && s'.table == r
    ensures InRecv(s.threads[u]) || s.threads[u].Idle? ==> s'.pushed == s.pushed
    ensures !InRecv(s.threads[u]) ==> s'.popped == s.popped
    decreases |cs|
  {
    if |cs| == 1 {
      s' := s;
      assert Connects([s], s, s);
    } else {
      CourseRest(cs, s.unicast);
      StaysInRecv(s.threads[u], s.table);
      var next := StepAlone(s, u);
      s' := FollowAlone(next, u, cs[1..], r);
      LeadsOn(s, next, s');
    }
  }

  /** A call that an idle thread begins and ends without anybody else moving. */
  lemma CallAlone(s: Sys, u: nat, pc: Pc, r: Table) returns (s': Sys)
    requires Alone(s, u) && s.threads[u] == Idle && Starts(pc, s.table) && Finishes(pc, s.table, s.unicast, r)
    ensures Leads(s, s') && Alone(s', u) && s'.unicast == s.unicast && s'.threads[u] == Idle && s'.table == r
    ensures InRecv(pc) ==> s'.pushed == s.pushed
    ensures !InRecv(pc) ==> s'.popped == s.popped
  {
    var begun := s.(threads := s.threads[u := pc]);
    assert Step(s, begun, u);
    StepInv(s, begun, u);
    LeadsByStep(s, begun, u);
    var cs :| EndsWith(cs, Config(pc, s.table), r, s.unicast);
    s' := FollowAlone(begun, u, cs, r);
    LeadsOn(s, begun, s');
  }

  // ---------------------------------------------------------------- the calls

  lemma OpenFinishes(t: Table, unicast: uint32)
    ensures Finishes(OpenLockMgr, t, unicast, Alloc(t))
  {
    var t' := Alloc(t);
    Last(UnlockMgr, t', unicast);
    Before(OpenAlloc, t, unicast, UnlockMgr, t', t');
    Before(OpenLockMgr, t, unicast, OpenAlloc, t, t');
  }

  lemma BindFinishes(t: Table, unicast: uint32, b: nat, ip: uint32, port: uint16)
    requires b < |t|
    ensures Finishes(BindLockMgr(b, ip, port), t, unicast, Bind(t, b, ip, port))
  {
    var t' := Bind(t, b, ip, port);
    if Select(t, ip, port).None? {
      ClaimFinishes(t, unicast, b, ip, port);
      Before(BindSelect(b, ip, port), t, unicast, BindLockBlock(b, ip, port), t, t');
    } else {
      Last(UnlockMgr, t, unicast);
      Before(BindSelect(b, ip, port), t, unicast, UnlockMgr, t, t);
    }
    Before(BindLockMgr(b, ip, port), t, unicast, BindSelect(b, ip, port), t, t');
  }

  lemma ClaimFinishes(t: Table, unicast: uint32, b: nat, ip: uint32, port: uint16)
    requires b < |t|
    ensures Finishes(BindLockBlock(b, ip, port), t, unicast, SetEndpoint(t, b, IpEndpoint(ip, port)))
  {
    var t' := SetEndpoint(t, b, IpEndpoint(ip, port));
    Last(UnlockMgr, t', unicast);
    Before(UnlockBlockThenMgr(b), t', unicast, UnlockMgr, t', t');
    Before(BindWrite(b, ip, port), t, unicast, UnlockBlockThenMgr(b), t', t');
    Before(BindLockBlock(b, ip, port), t, unicast, BindWrite(b, ip, port), t, t');
  }

  lemma SendFinishes(t: Table, unicast: uint32, b: nat)
    requires b < |t| && t[b].state == OPEN
    ensures Finishes(SendLockMgr(b), t, unicast, AssignPort(t, b, unicast))
  {
    var t' := AssignPort(t, b, unicast);
    Last(UnlockBlock(b), t', unicast);
    Before(UnlockMgrThenBlock(b), t', unicast, UnlockBlock(b), t', t');
    Before(SendAssign(b), t, unicast, UnlockMgrThenBlock(b), t', t');
    Before(SendLockBlock(b), t, unicast, SendAssign(b), t, t');
    Before(SendGet(b), t, unicast, SendLockBlock(b), t, t');
    Before(SendLockMgr(b), t, unicast, SendGet(b), t, t');
  }

  /** The receive handler pushes to the selected block, or does nothing. */
  lemma HandleFinishes(t: Table, unicast: uint32, dst: uint32, port: uint16, m: UdpPcbPayload)
    ensures Finishes(HandleLockMgr(dst, port, m), t, unicast,
                     match Select(t, dst, port) case None => t case Some(b) => Push(t, b, m))
  {
    match Select(t, dst, port)
    case None =>
      Last(UnlockMgr, t, unicast);
      Before(HandleSelect(dst, port, m), t, unicast, UnlockMgr, t, t);
      Before(HandleLockMgr(dst, port, m), t, unicast, HandleSelect(dst, port, m), t, t);
    case Some(b) =>
      PushFinishes(t, unicast, b, dst, port, m);
      Before(HandleSelect(dst, port, m), t, unicast, HandleLockBlock(b, dst, port, m), t, Push(t, b, m));
      Before(HandleLockMgr(dst, port, m), t, unicast, HandleSelect(dst, port, m), t, Push(t, b, m));
  }

  lemma PushFinishes(t: Table, unicast: uint32, b: nat, dst: uint32, port: uint16, m: UdpPcbPayload)
    requires b < |t|
    ensures Finishes(HandleLockBlock(b, dst, port, m), t, unicast, Push(t, b, m))
  {
    var t' := Push(t, b, m);
    Last(UnlockBlock(b), t', unicast);
    Before(HandlePush(b, m), t, unicast, UnlockBlock(b), t', t');
    Before(HandleUnlockMgr(b, dst, port, m), t, unicast, HandlePush(b, m), t, t');
    Before(HandleLockBlock(b, dst, port, m), t, unicast, HandleUnlockMgr(b, dst, port, m), t, t');
  }

  function Taken(t: Table, b: nat): Table
    requires b < |t| && (t[b].que != [] || t[b].interrupted)
  {
    if t[b].interrupted then t else Pop(t, b)
  }

  lemma PopFinishes(t: Table, unicast: uint32, b: nat)
    requires b < |t| && t[b].que != []
    ensures Finishes(RecvPop(b), t, unicast, Pop(t, b))
  {
    Last(RecvTaken(b), Pop(t, b), unicast);
    Before(RecvPop(b), t, unicast, RecvTaken(b), Pop(t, b), Pop(t, b));
  }

  lemma DecisionFinishes(t: Table, unicast: uint32, b: nat)
    requires b < |t| && (t[b].que != [] || t[b].interrupted)
    ensures Finishes(RecvDecide(b), t, unicast, Taken(t, b))
  {
    if t[b].interrupted {
      Last(RecvFailed(b), t, unicast);
      Before(RecvDecide(b), t, unicast, RecvFailed(b), t, t);
    } else {
      PopFinishes(t, unicast, b);
      Before(RecvDecide(b), t, unicast, RecvPop(b), t, Pop(t, b));
    }
  }

  /** When there is something to return with, recvFrom takes the oldest datagram, or on an
      interrupted block nothing. */
  lemma RecvFinishes(t: Table, unicast: uint32, b: nat)
    requires b < |t| && (t[b].que != [] || t[b].interrupted)
    ensures Finishes(RecvLockMgr(b), t, unicast, Taken(t, b))
  {
    DecisionFinishes(t, unicast, b);
    Before(RecvCheck(b), t, unicast, RecvDecide(b), t, Taken(t, b));
    LookFinishes(t, unicast, b, Taken(t, b));
  }

  lemma LookFinishes(t: Table, unicast: uint32, b: nat, r: Table)
    requires b < |t| && Finishes(RecvCheck(b), t, unicast, r)
    ensures Finishes(RecvLockMgr(b), t, unicast, r)
  {
    Before(RecvLockBlock(b), t, unicast, RecvCheck(b), t, r);
    Before(RecvUnlockMgr(b), t, unicast, RecvLockBlock(b), t, r);
    Before(RecvLockMgr(b), t, unicast, RecvUnlockMgr(b), t, r);
  }

  /** The table when the blocks from b on have been gone through. */
  function InterruptFrom(t: Table, b: nat): Table
    requires b <= |t|
  {
    t[..b] + InterruptOpen(t)[b..]
  }

  lemma InterruptOne(t: Table, b: nat)
    requires b < |t|
    ensures InterruptFrom(t, b) == InterruptFrom(if t[b].state == OPEN then Interrupt(t, b) else t, b + 1)
  {
  }

  lemma InterruptEnds(t: Table)
    ensures InterruptFrom(t, 0) == InterruptOpen(t) && InterruptFrom(t, |t|) == t
  {
  }

  lemma LockBlockFinishes(t: Table, unicast: uint32, b: nat, r: Table)
    requires b < |t| && Finishes(EventScan(b + 1), Interrupt(t, b), unicast, r)
    ensures Finishes(EventLockBlock(b), t, unicast, r)
  {
    Before(EventSet(b), t, unicast, EventScan(b + 1), Interrupt(t, b), r);
    Before(EventUnlockBlock(b), t, unicast, EventSet(b), t, r);
    Before(EventLockBlock(b), t, unicast, EventUnlockBlock(b), t, r);
  }

  lemma {:induction false} ScanFinishes(t: Table, unicast: uint32, b: nat)
    requires b <= |t|
    ensures Finishes(EventScan(b), t, unicast, InterruptFrom(t, b))
    decreases |t| - b
  {
    var r := InterruptFrom(t, b);
    if b == |t| {
      InterruptEnds(t);
      Last(EventScan(b), t, unicast);
    } else {
      InterruptOne(t, b);
      if t[b].state == OPEN {
        ScanFinishes(Interrupt(t, b), unicast, b + 1);
        LockBlockFinishes(t, unicast, b, r);
        Before(EventScan(b), t, unicast, EventLockBlock(b), t, r);
      } else {
        ScanFinishes(t, unicast, b + 1);
        Before(EventScan(b), t, unicast, EventScan(b + 1), t, r);
      }
    }
  }

  /** The event sets the flag of exactly the open blocks. */
  lemma EventFinishes(t: Table, unicast: uint32)
    ensures Finishes(EventLockMgr, t, unicast, InterruptOpen(t))
  {
    ScanFinishes(t, unicast, 0);
    InterruptEnds(t);
    Before(EventUnlockMgr, t, unicast, EventScan(0), t, InterruptOpen(t));
    Before(EventLockMgr, t, unicast, EventUnlockMgr, t, InterruptOpen(t));
  }

  // ---------------------------------------------------------------- one datagram through a fresh stack

  /** The first allocation in a fresh table. */
  lemma FirstOpened(t: Table)
    requires OpenPrefix(t, 0) && |t| > 0
    ensures Alloc(t)[0] == Block(0, OPEN, IpEndpoint(0, 0), t[0].que, t[0].interrupted)
    ensures forall i :: 0 < i < |t| ==> Alloc(t)[i].state == FREE
  {
    AllocKeepsOrder(t, 0);
  }

  /** ... bound to an address and a port other than 0, is found there. */
  lemma FirstBound(t: Table, ip: uint32, port: uint16)
    requires |t| > 0 && t[0].state == OPEN && t[0].endpoint == IpEndpoint(0, 0) && port != 0
    requires forall i :: 0 < i < |t| ==> t[i].state == FREE
    ensures var t' := Bind(t, 0, ip, port);
            && |t'| == |t| && t'[0] == t[0].(endpoint := IpEndpoint(ip, port))
            && Select(t', ip, port) == Some(0)
  {
    assert Unmatched(t, ip, port);
    BoundIsSelected(t, 0, ip, port);
  }

  /** From any fresh state: open, and bind. */
  lemma OpenAndBind(s0: Sys, u: nat, ip: uint32, port: uint16) returns (s: Sys)
    requires Init(s0) && u < |s0.threads| && port != 0
    ensures Leads(s0, s) && Alone(s, u) && s.threads[u] == Idle && s.popped[0] == []
    ensures s.table[0] == Block(0, OPEN, IpEndpoint(ip, port), [], false) && Select(s.table, ip, port) == Some(0)
  {
    InitInv(s0);
    OpenFinishes(s0.table, s0.unicast);
    var s1 := CallAlone(s0, u, OpenLockMgr, Alloc(s0.table));
    FirstOpened(s0.table);
    BindFinishes(s1.table, s1.unicast, 0, ip, port);
    s := CallAlone(s1, u, BindLockMgr(0, ip, port), Bind(s1.table, 0, ip, port));
    FirstBound(s1.table, ip, port);
    LeadsOn(s0, s1, s);
  }

  /** From any fresh state: open, bind, one datagram delivered there. It is queued on the block,
      whose flag is down; and recvFrom returns that datagram. */
  lemma FirstDatagramArrives(s0: Sys, u: nat, ip: uint32, port: uint16, m: UdpPcbPayload) returns (s: Sys, s': Sys)
    requires Init(s0) && u < |s0.threads| && port != 0
    ensures Leads(s0, s) && Leads(s, s') && Alone(s, u) && Alone(s', u) && s.threads[u] == s'.threads[u] == Idle
    ensures s.table[0] == Block(0, OPEN, IpEndpoint(ip, port), [m], false) && s.popped[0] == []
    ensures s'.table == Pop(s.table, 0) && s'.popped[0] == [m]
  {
    var s1 := OpenAndBind(s0, u, ip, port);
    HandleFinishes(s1.table, s1.unicast, ip, port, m);
    s := CallAlone(s1, u, HandleLockMgr(ip, port, m), Push(s1.table, 0, m));
    LeadsOn(s0, s1, s);
    s' := ReceivedAlone(s, u, 0);
  }

  /** A recvFrom that is alone returns the front of the queue, and consumes nothing else. */
  lemma ReceivedAlone(s: Sys, u: nat, b: nat) returns (s': Sys)
    requires Alone(s, u) && s.threads[u] == Idle && b < TABLE_SIZE && s.table[b].state == OPEN
    requires s.table[b].que != [] && !s.table[b].interrupted
    ensures Leads(s, s') && Alone(s', u) && s'.threads[u] == Idle
    ensures s'.table == Pop(s.table, b) && s'.popped[b] == s.popped[b] + [s.table[b].que[0]]
  {
    RecvFinishes(s.table, s.unicast, b);
    s' := CallAlone(s, u, RecvLockMgr(b), Pop(s.table, b));
    assert s.pushed[b] == s.popped[b] + s.table[b].que && s'.pushed[b] == s'.popped[b] + s'.table[b].que;
    FrontTaken(s.popped[b], s.table[b].que, s'.popped[b]);
  }

  lemma FrontTaken<T>(p: seq<T>, q: seq<T>, p': seq<T>)
    requires q != [] && p + q == p' + q[1..]
    ensures p' == p + [q[0]]
  {
    assert |p'| == |p| + 1;
    assert p' == (p + q)[..|p| + 1];
  }

  /** After an event, recvFrom on any socket returns without a datagram. */
  lemma InterruptedAlone(s: Sys, u: nat, b: nat) returns (s1: Sys, s2: Sys)
    requires Alone(s, u) && s.threads[u] == Idle && b < TABLE_SIZE && s.table[b].state == OPEN
    ensures Leads(s, s1) && Leads(s1, s2) && Alone(s2, u) && s2.threads[u] == Idle
    ensures s1.table == s2.table == InterruptOpen(s.table) && s2.popped[b] == s.popped[b]
  {
    EventFinishes(s.table, s.unicast);
    s1 := CallAlone(s, u, EventLockMgr, InterruptOpen(s.table));
    RecvFinishes(s1.table, s1.unicast, b);
    s2 := CallAlone(s1, u, RecvLockMgr(b), s1.table);
    assert s1.pushed[b] == s1.popped[b] + s1.table[b].que && s2.pushed[b] == s2.popped[b] + s2.table[b].que;
    SamePrefix(s1.popped[b], s2.popped[b], s1.table[b].que);
  }

  lemma SamePrefix<T>(p: seq<T>, p': seq<T>, q: seq<T>)
    requires p + q == p' + q
    ensures p == p'
  {
    assert |p| == |p'|;
    assert p == (p + q)[..|p|] && p' == (p' + q)[..|p|];
  }

  // ---------------------------------------------------------------- losing traffic

  lemma SomeInit(unicast: uint32) returns (s: Sys)
    ensures Init(s) && Alone(s, 0) && s.unicast == unicast && s.threads[0] == Idle && s.opens == 0
  {
    var none, empty := seq(TABLE_SIZE, _ => None), seq(TABLE_SIZE, _ => []);
    var free := seq(TABLE_SIZE, _ => Block(0, FREE, IpEndpoint(IP_ADDR_ANY, 0), [], false));
    s := Sys(unicast, None, none, free, [Idle], 0, empty, empty);
    InitInv(s);
  }

  lemma TwoOpened(t: Table)
    requires |t| == TABLE_SIZE && OpenPrefix(t, 0)
    ensures var t' := Alloc(Alloc(t));
            && |t'| == TABLE_SIZE && OpenPrefix(t', 2)
            && t'[0].endpoint == t'[1].endpoint == IpEndpoint(IP_ADDR_ANY, 0)
  {
    AllocKeepsOrder(t, 0);
    AllocKeepsOrder(Alloc(t), 1);
  }

  /** From a fresh table, two sockets are opened. */
  lemma TwoSockets(unicast: uint32) returns (s0: Sys, s: Sys)
    ensures Init(s0) && Leads(s0, s) && Alone(s, 0) && s.threads[0] == Idle && s.unicast == unicast
    ensures OpenPrefix(s.table, 2) && s.table[0].endpoint == s.table[1].endpoint == IpEndpoint(IP_ADDR_ANY, 0)
  {
    s0 := SomeInit(unicast);
    OpenFinishes(s0.table, unicast);
    var s1 := CallAlone(s0, 0, OpenLockMgr, Alloc(s0.table));
    OpenFinishes(s1.table, unicast);
    s := CallAlone(s1, 0, OpenLockMgr, Alloc(s1.table));
    TwoOpened(s0.table);
    LeadsOn(s0, s1, s);
  }

  /** ... and the second one is bound to (ip, port). */
  lemma SecondBound(unicast: uint32, ip: uint32) returns (s0: Sys, s: Sys)
    requires ip != IP_ADDR_ANY
    ensures Init(s0) && Leads(s0, s) && Alone(s, 0) && s.threads[0] == Idle && s.unicast == unicast
    ensures OpenPrefix(s.table, 2) && s.table[0].endpoint == IpEndpoint(IP_ADDR_ANY, 0)
    ensures s.table[1].endpoint == IpEndpoint(ip, SOURCE_PORT_MIN)
  {
    var s1: Sys;
    s0, s1 := TwoSockets(unicast);
    BindFinishes(s1.table, unicast, 1, ip, SOURCE_PORT_MIN);
    s := CallAlone(s1, 0, BindLockMgr(1, ip, SOURCE_PORT_MIN), Bind(s1.table, 1, ip, SOURCE_PORT_MIN));
    assert Unmatched(s1.table, ip, SOURCE_PORT_MIN);
    LeadsOn(s0, s1, s);
  }

  /** A run in which a socket is bound and found at (ip, port), keeps that endpoint, and is no
      longer found: by another's bind to 0.0.0.0, or by another's sendTo. */
  lemma TrafficIsLost(unicast: uint32, ip: uint32, byBind: bool) returns (s0: Sys, s: Sys, s': Sys)
    requires ip != IP_ADDR_ANY && ip != unicast
    ensures Init(s0) && Leads(s0, s) && Leads(s, s') && s'.unicast == unicast
    ensures |s.table| == |s'.table| == TABLE_SIZE
    ensures s.table[1].endpoint == s'.table[1].endpoint == IpEndpoint(ip, SOURCE_PORT_MIN)
    ensures Select(s.table, ip, SOURCE_PORT_MIN) == Some(1) && Select(s'.table, ip, SOURCE_PORT_MIN) == Some(0)
    ensures s'.table ==
            if byBind then Bind(s.table, 0, IP_ADDR_ANY, SOURCE_PORT_MIN) else AssignPort(s.table, 0, unicast)
  {
    s0, s := SecondBound(unicast, ip);
    TrafficCanBeLost(s.table, ip, unicast);
    if byBind {
      BindFinishes(s.table, unicast, 0, IP_ADDR_ANY, SOURCE_PORT_MIN);
      s' := CallAlone(s, 0, BindLockMgr(0, IP_ADDR_ANY, SOURCE_PORT_MIN),
                      Bind(s.table, 0, IP_ADDR_ANY, SOURCE_PORT_MIN));
    } else {
      SendFinishes(s.table, unicast, 0);
      s' := CallAlone(s, 0, SendLockMgr(0), AssignPort(s.table, 0, unicast));
    }
  }
}
