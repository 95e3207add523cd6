/** Any number of threads inside the UDP layer at once: the receive handler, the socket calls
    and the interrupt event, one lock operation or one access to shared state per step. */
module UdpThreads {
  import opened Wrappers
  import opened Bytes
  import opened UdpPcb

  datatype Lock = Mgr | Blk(i: nat)

  /** Where a thread stands. Names ending in LockMgr, LockBlock: about to take that mutex. */
  datatype Pc =
    | Idle
    // UdpHandler::handle
    | HandleLockMgr(dst: uint32, port: uint16, m: UdpPcbPayload)
    | HandleSelect(dst: uint32, port: uint16, m: UdpPcbPayload)
    | HandleLockBlock(b: nat, dst: uint32, port: uint16, m: UdpPcbPayload)
    | HandleUnlockMgr(b: nat, dst: uint32, port: uint16, m: UdpPcbPayload)
    | HandlePush(b: nat, m: UdpPcbPayload)
    // UdpSocket::bind
    | BindLockMgr(b: nat, ip: uint32, port: uint16)
    | BindSelect(b: nat, ip: uint32, port: uint16)
    | BindLockBlock(b: nat, ip: uint32, port: uint16)
    | BindWrite(b: nat, ip: uint32, port: uint16)
    // UdpSocket::sendTo, up to the call of udp_output
    | SendLockMgr(b: nat)
    | SendGet(b: nat)
    | SendLockBlock(b: nat)
    | SendAssign(b: nat)
    // UdpSocket::recvFrom
    | RecvLockMgr(b: nat)
    | RecvUnlockMgr(b: nat)
    | RecvLockBlock(b: nat)
    | RecvCheck(b: nat)
    | RecvRelease(b: nat)
    | RecvSleep(b: nat)
    | RecvDecide(b: nat)
    | RecvPop(b: nat)
    | RecvTaken(b: nat)
    | RecvFailed(b: nat)
    // UdpSocket::open
    | OpenLockMgr
    | OpenAlloc
    // UdpEventHandler::handle: both guards are temporaries, released at once
    | EventLockMgr
    | EventUnlockMgr
    | EventScan(b: nat)
    | EventLockBlock(b: nat)
    | EventUnlockBlock(b: nat)
    | EventSet(b: nat)
    // ends of the guarded scopes
    | UnlockMgr
    | UnlockBlock(b: nat)
    | UnlockMgrThenBlock(b: nat)
    | UnlockBlockThenMgr(b: nat)

  function Acquires(pc: Pc): Option<Lock> {
    match pc
    case HandleLockMgr(_, _, _) => Some(Mgr)
    case BindLockMgr(_, _, _) => Some(Mgr)
    case SendLockMgr(_) => Some(Mgr)
    case RecvLockMgr(_) => Some(Mgr)
    case OpenLockMgr => Some(Mgr)
    case EventLockMgr => Some(Mgr)
    case HandleLockBlock(b, _, _, _) => Some(Blk(b))
    case BindLockBlock(b, _, _) => Some(Blk(b))
    case SendLockBlock(b) => Some(Blk(b))
    case RecvLockBlock(b) => Some(Blk(b))
    case EventLockBlock(b) => Some(Blk(b))
    case _ => None
  }

  function Releases(pc: Pc): Option<Lock> {
    match pc
    case HandleUnlockMgr(_, _, _, _) => Some(Mgr)
    case RecvUnlockMgr(_) => Some(Mgr)
    case EventUnlockMgr => Some(Mgr)
    case UnlockMgr => Some(Mgr)
    case UnlockMgrThenBlock(_) => Some(Mgr)
    case RecvRelease(b) => Some(Blk(b))
    case RecvTaken(b) => Some(Blk(b))
    case RecvFailed(b) => Some(Blk(b))
    case EventUnlockBlock(b) => Some(Blk(b))
    case UnlockBlock(b) => Some(Blk(b))
    case UnlockBlockThenMgr(b) => Some(Blk(b))
    case _ => None
  }

  /** Which locks the code position says are held. */
  predicate HoldsMgr(pc: Pc) {
    pc.HandleSelect? || pc.HandleLockBlock? || pc.HandleUnlockMgr? || pc.BindSelect? || pc.BindLockBlock? ||
    pc.BindWrite? || pc.SendGet? || pc.SendLockBlock? || pc.SendAssign? || pc.RecvUnlockMgr? || pc.OpenAlloc? ||
    pc.EventUnlockMgr? || pc.UnlockMgr? || pc.UnlockMgrThenBlock? || pc.UnlockBlockThenMgr?
  }

  predicate HoldsBlock(pc: Pc, i: nat) {
    (pc.HandleUnlockMgr? || pc.HandlePush? || pc.BindWrite? || pc.SendAssign? || pc.RecvCheck? || pc.RecvRelease? ||
     pc.RecvDecide? || pc.RecvPop? || pc.RecvTaken? || pc.RecvFailed? || pc.EventUnlockBlock? || pc.UnlockBlock? ||
     pc.UnlockMgrThenBlock? || pc.UnlockBlockThenMgr?) && pc.b == i
  }

  /** Positions that name a block; all of them but the scan name one of the table. */
  predicate Named(pc: Pc) {
    !(pc.Idle? || pc.HandleLockMgr? || pc.HandleSelect? || pc.OpenLockMgr? || pc.OpenAlloc? || pc.EventLockMgr? ||
      pc.EventUnlockMgr? || pc.UnlockMgr?)
  }

  predicate InRange(pc: Pc, n: nat) {
    Named(pc) && !pc.EventScan? ==> pc.b < n
  }

  /** The next position, given the table as the thread sees it. */
  function Next(pc: Pc, t: Table): Pc
    requires !pc.Idle? && InRange(pc, |t|)
  {
    match pc
    case HandleLockMgr(dst, port, m) => HandleSelect(dst, port, m)
    case HandleSelect(dst, port, m) =>
      (match Select(t, dst, port)
       case None => UnlockMgr
       case Some(b) => HandleLockBlock(b, dst, port, m))
    case HandleLockBlock(b, dst, port, m) => HandleUnlockMgr(b, dst, port, m)
    case HandleUnlockMgr(b, _, _, m) => HandlePush(b, m)
    case HandlePush(b, m) => UnlockBlock(b)
    case BindLockMgr(b, ip, port) => BindSelect(b, ip, port)
    case BindSelect(b, ip, port) => if Select(t, ip, port).Some? then UnlockMgr else BindLockBlock(b, ip, port)
    case BindLockBlock(b, ip, port) => BindWrite(b, ip, port)
    case BindWrite(b, _, _) => UnlockBlockThenMgr(b)
    case SendLockMgr(b) => SendGet(b)
    case SendGet(b) => if t[b].state != OPEN then UnlockMgr else SendLockBlock(b)
    case SendLockBlock(b) => SendAssign(b)
    case SendAssign(b) => UnlockMgrThenBlock(b)
    case RecvLockMgr(b) => RecvUnlockMgr(b)
    case RecvUnlockMgr(b) => RecvLockBlock(b)
    case RecvLockBlock(b) => RecvCheck(b)
    case RecvCheck(b) => if t[b].que != [] || t[b].interrupted then RecvDecide(b) else RecvRelease(b)
    case RecvRelease(b) => RecvSleep(b)
    case RecvSleep(b) => RecvLockBlock(b)
    case RecvDecide(b) => if t[b].interrupted then RecvFailed(b) else RecvPop(b)
    case RecvPop(b) => RecvTaken(b)
    case RecvTaken(_) => Idle
    case RecvFailed(_) => Idle
    case OpenLockMgr => OpenAlloc
    case OpenAlloc => UnlockMgr
    case EventLockMgr => EventUnlockMgr
    case EventUnlockMgr => EventScan(0)
    case EventScan(b) =>
      if b >= |t| then Idle else if t[b].state == OPEN then EventLockBlock(b) else EventScan(b + 1)
    case EventLockBlock(b) => EventUnlockBlock(b)
    case EventUnlockBlock(b) => EventSet(b)
    case EventSet(b) => EventScan(b + 1)
    case UnlockMgr => Idle
    case UnlockBlock(_) => Idle
    case UnlockMgrThenBlock(b) => UnlockBlock(b)
    case UnlockBlockThenMgr(_) => UnlockMgr
  }

  /** What the step does to the control blocks. */
  function Effect(pc: Pc, t: Table, unicast: uint32): (t': Table)
    requires InRange(pc, |t|)
    ensures |t'| == |t|
  {
    match pc
    case HandlePush(b, m) => Push(t, b, m)
    case BindWrite(b, ip, port) => SetEndpoint(t, b, IpEndpoint(ip, port))
    case SendAssign(b) => AssignPort(t, b, unicast)
    case RecvPop(b) => if t[b].que == [] then t else Pop(t, b)
    case OpenAlloc => Alloc(t)
    case EventSet(b) => Interrupt(t, b)
    case _ => t
  }

  // ---------------------------------------------------------------- the system

  /** `pushed` and `popped` record what went into and came out of every queue; `opens`
      counts successful opens. */
  datatype Sys = Sys(
    unicast: uint32,
    mgr: Option<nat>,
    held: seq<Option<nat>>,
    table: Table,
    threads: seq<Pc>,
    opens: nat,
    pushed: seq<seq<UdpPcbPayload>>,
    popped: seq<seq<UdpPcbPayload>>)

  predicate WellFormed(s: Sys) {
    && |s.held| == |s.table| == |s.pushed| == |s.popped| == TABLE_SIZE
    && forall u :: 0 <= u < |s.threads| ==> InRange(s.threads[u], TABLE_SIZE)
  }

  predicate Init(s: Sys) {
    && WellFormed(s) && s.mgr == None && s.opens == 0
    && (forall i :: 0 <= i < TABLE_SIZE ==> s.held[i] == None && s.pushed[i] == s.popped[i] == [])
    && (forall i :: 0 <= i < TABLE_SIZE ==> s.table[i].state == FREE && s.table[i].que == [] && !s.table[i].interrupted)
    && (forall u :: 0 <= u < |s.threads| ==> s.threads[u] == Idle)
  }

  predicate Available(s: Sys, pc: Pc)
    requires WellFormed(s) && InRange(pc, TABLE_SIZE)
  {
    match Acquires(pc)
    case None => true
    case Some(Mgr) => s.mgr == None
    case Some(Blk(i)) => s.held[i] == None
  }

  /** A call may begin: socket calls are made on sockets, that is on open blocks. */
  predicate Starts(pc: Pc, t: Table) {
    || pc.HandleLockMgr? || pc.OpenLockMgr? || pc.EventLockMgr?
    || ((pc.BindLockMgr? || pc.SendLockMgr? || pc.RecvLockMgr?) && pc.b < |t| && t[pc.b].state == OPEN)
  }

  function Hold(held: seq<Option<nat>>, l: Option<Lock>, holder: Option<nat>): (r: seq<Option<nat>>)
    ensures |r| == |held|
    ensures forall i: nat :: i < |r| ==> r[i] == if l == Some(Blk(i)) then holder else held[i]
  {
    match l
    case Some(Blk(i)) => if i < |held| then held[i := holder] else held
    case _ => held
  }

  function Exec(s: Sys, u: nat): Sys
    requires WellFormed(s) && u < |s.threads| && !s.threads[u].Idle?
  {
    var pc := s.threads[u];
    s.(mgr := if Acquires(pc) == Some(Mgr) then Some(u) else if Releases(pc) == Some(Mgr) then None else s.mgr,
       held := Hold(Hold(s.held, Releases(pc), None), Acquires(pc), Some(u)),
       table := Effect(pc, s.table, s.unicast),
       threads := s.threads[u := Next(pc, s.table)],
       opens := if pc.OpenAlloc? && FirstFree(s.table).Some? then s.opens + 1 else s.opens,
       pushed := if pc.HandlePush? then s.pushed[pc.b := s.pushed[pc.b] + [pc.m]] else s.pushed,
       popped := if pc.RecvPop? && s.table[pc.b].que != []
                 then s.popped[pc.b := s.popped[pc.b] + [s.table[pc.b].que[0]]] else s.popped)
  }

  /** Thread u begins a call, or takes the next step of one. */
  predicate Step(s: Sys, s': Sys, u: nat) {
    && WellFormed(s) && u < |s.threads| == |s'.threads|
    && if s.threads[u].Idle?
       then Starts(s'.threads[u], s.table) && s' == s.(threads := s.threads[u := s'.threads[u]])
       else Available(s, s.threads[u]) && s' == Exec(s, u)
  }

  ghost predicate SomeStep(s: Sys, s': Sys) {
    exists u :: Step(s, s', u)
  }

  ghost predicate Path(run: seq<Sys>) {
    |run| > 0 && forall i :: 0 < i < |run| ==> SomeStep(run[i - 1], run[i])
  }

  ghost predicate Run(run: seq<Sys>) {
    Path(run) && Init(run[0])
  }

  // ---------------------------------------------------------------- lock discipline of the code

  lemma MgrMoves(pc: Pc, t: Table)
    requires !pc.Idle? && InRange(pc, |t|)
    ensures HoldsMgr(Next(pc, t)) <==>
            Acquires(pc) == Some(Mgr) || (HoldsMgr(pc) && Releases(pc) != Some(Mgr))
  {
  }

  lemma BlockMoves(pc: Pc, t: Table, i: nat)
    requires !pc.Idle? && InRange(pc, |t|)
    ensures HoldsBlock(Next(pc, t), i) <==>
            Acquires(pc) == Some(Blk(i)) || (HoldsBlock(pc, i) && Releases(pc) != Some(Blk(i)))
  {
  }

  /** Taking and releasing locks is what moves a thread between the positions that hold them. */
  lemma LockMoves(pc: Pc, t: Table, i: nat)
    requires !pc.Idle? && InRange(pc, |t|)
    ensures HoldsMgr(Next(pc, t)) <==>
            Acquires(pc) == Some(Mgr) || (HoldsMgr(pc) && Releases(pc) != Some(Mgr))
    ensures HoldsBlock(Next(pc, t), i) <==>
            Acquires(pc) == Some(Blk(i)) || (HoldsBlock(pc, i) && Releases(pc) != Some(Blk(i)))
  {
    MgrMoves(pc, t);
    BlockMoves(pc, t, i);
  }

  lemma NextInRange(pc: Pc, t: Table)
    requires !pc.Idle? && InRange(pc, |t|)
    ensures InRange(Next(pc, t), |t|)
  {
  }

  /** No position that waits for the manager holds anything, and none that holds a block waits. */
  lemma LockOrder(pc: Pc, i: nat)
    ensures Acquires(pc) == Some(Mgr) ==> !HoldsMgr(pc) && !HoldsBlock(pc, i)
    ensures HoldsBlock(pc, i) ==> Acquires(pc) == None
    ensures Releases(pc) == Some(Mgr) ==> HoldsMgr(pc)
    ensures Releases(pc) == Some(Blk(i)) ==> HoldsBlock(pc, i)
  {
  }

  /** States and endpoints are written under the manager mutex, queues under the block's own. */
  lemma EffectUnderLocks(pc: Pc, t: Table, unicast: uint32, i: nat)
    requires InRange(pc, |t|) && i < |t|
    ensures var t' := Effect(pc, t, unicast);
            && (t'[i].state != t[i].state || t'[i].endpoint != t[i].endpoint || t'[i].id != t[i].id ==> HoldsMgr(pc))
            && (t'[i].que != t[i].que ==> HoldsBlock(pc, i))
            && (t[i].interrupted ==> t'[i].interrupted)
            && (t[i].state == OPEN ==> t'[i].state == OPEN)
  {
  }

  // ---------------------------------------------------------------- what every run keeps

  predicate Owns(s: Sys, u: nat) {
    u < |s.threads| && HoldsMgr(s.threads[u])
  }

  predicate OwnsBlock(s: Sys, u: nat, i: nat) {
    u < |s.threads| && HoldsBlock(s.threads[u], i)
  }

  /** The mutexes are held by exactly the threads whose positions say so. */
  ghost predicate LocksAgree(s: Sys) {
    && |s.held| == TABLE_SIZE
    && (forall u: nat {:trigger Owns(s, u)} :: Owns(s, u) <==> s.mgr == Some(u))
    && (forall u: nat, i: nat {:trigger OwnsBlock(s, u, i)} :: i < TABLE_SIZE ==>
          (OwnsBlock(s, u, i) <==> s.held[i] == Some(u)))
  }

  /** What a thread knows at its position about the table, while it holds its locks. */
  predicate Justified(pc: Pc, t: Table)
    requires InRange(pc, |t|)
  {
    && (pc.HandleLockBlock? || pc.HandleUnlockMgr? ==> Select(t, pc.dst, pc.port) == Some(pc.b))
    && (pc.BindLockBlock? || pc.BindWrite? ==> Unmatched(t, pc.ip, pc.port))
    && (pc.BindLockMgr? || pc.BindSelect? || pc.BindLockBlock? || pc.BindWrite? ==> t[pc.b].state == OPEN)
    && (pc.SendLockBlock? || pc.SendAssign? ==> t[pc.b].state == OPEN)
    && (pc.RecvDecide? ==> t[pc.b].que != [] || t[pc.b].interrupted)
    && (pc.RecvPop? ==> t[pc.b].que != [])
    && (pc.RecvFailed? ==> t[pc.b].interrupted)
    && (pc.EventLockBlock? || pc.EventUnlockBlock? || pc.EventSet? ==> t[pc.b].state == OPEN)
  }

  predicate AllJustified(s: Sys)
    requires WellFormed(s)
  {
    forall u :: 0 <= u < |s.threads| ==> Justified(s.threads[u], s.table)
  }

  /** What was pushed to a block is what was taken from it, in order, and then its queue. */
  predicate Conserved(s: Sys)
    requires WellFormed(s)
  {
    forall i :: 0 <= i < TABLE_SIZE ==> s.pushed[i] == s.popped[i] + s.table[i].que
  }

  ghost predicate Inv(s: Sys) {
    && WellFormed(s) && LocksAgree(s) && AllJustified(s) && Conserved(s)
    && OpenPrefix(s.table, s.opens) && UniqueEndpoints(s.table)
  }

  lemma InitInv(s: Sys)
    requires Init(s)
    ensures Inv(s)
  {
  }

  lemma StepWellFormed(s: Sys, s': Sys, u: nat)
    requires WellFormed(s) && Step(s, s', u)
    ensures WellFormed(s')
  {
    if !s.threads[u].Idle? {
      NextInRange(s.threads[u], s.table);
    }
  }

  lemma StepLocks(s: Sys, s': Sys, u: nat)
    requires Inv(s) && Step(s, s', u)
    ensures LocksAgree(s')
  {
    var pc := s.threads[u];
    forall v: nat
      ensures Owns(s', v) <==> s'.mgr == Some(v)
    {
      assert Owns(s, v) <==> s.mgr == Some(v);
      assert Owns(s, u) <==> s.mgr == Some(u);
      if !pc.Idle? {
        LockMoves(pc, s.table, 0);
        LockOrder(pc, 0);
      }
    }
    forall v: nat, i: nat | i < TABLE_SIZE
      ensures OwnsBlock(s', v, i) <==> s'.held[i] == Some(v)
    {
      assert OwnsBlock(s, v, i) <==> s.held[i] == Some(v);
      assert OwnsBlock(s, u, i) <==> s.held[i] == Some(u);
      if !pc.Idle? {
        LockMoves(pc, s.table, i);
        LockOrder(pc, i);
      }
    }
  }

  predicate SameClaim(a: Block, b: Block) {
    a.state == b.state && a.endpoint == b.endpoint
  }

  /** Endpoint lookups agree on tables whose states and endpoints agree. */
  lemma SameEndpoints(t: Table, t': Table, ip: uint32, port: uint16)
    requires |t| == |t'| && forall i :: 0 <= i < |t| ==> SameClaim(t[i], t'[i])
    ensures Unmatched(t, ip, port) <==> Unmatched(t', ip, port)
    ensures Select(t, ip, port) == Select(t', ip, port)
  {
    assert forall i :: 0 <= i < |t| ==> (Matches(t[i], ip, port) <==> Matches(t'[i], ip, port));
  }

  predicate Eventing(pc: Pc) {
    pc.EventLockMgr? || pc.EventUnlockMgr? || pc.EventScan? || pc.EventLockBlock? || pc.EventUnlockBlock? ||
    pc.EventSet?
  }

  lemma EventStepperJustified(pc: Pc, t: Table, unicast: uint32)
    requires Eventing(pc) && InRange(pc, |t|) && Justified(pc, t)
    ensures InRange(Next(pc, t), |t|) && Justified(Next(pc, t), Effect(pc, t, unicast))
  {
  }

  /** The stepping thread reaches its next position with what it has to know there. */
  lemma StepperJustified(pc: Pc, t: Table, unicast: uint32)
    requires !pc.Idle? && InRange(pc, |t|) && Justified(pc, t)
    ensures InRange(Next(pc, t), |t|) && Justified(Next(pc, t), Effect(pc, t, unicast))
  {
    NextInRange(pc, t);
    if Eventing(pc) {
      EventStepperJustified(pc, t, unicast);
    }
  }

  /** What thread v holds locks for is not written by thread u. */
  lemma OthersKeep(s: Sys, s': Sys, u: nat, v: nat, i: nat)
    requires Inv(s) && Step(s, s', u) && v < |s.threads| && v != u && !s.threads[u].Idle? && i < TABLE_SIZE
    ensures HoldsMgr(s.threads[v]) ==> SameClaim(s.table[i], s'.table[i])
    ensures HoldsBlock(s.threads[v], i) ==> s'.table[i].que == s.table[i].que
    ensures s.table[i].interrupted ==> s'.table[i].interrupted
    ensures s.table[i].state == OPEN ==> s'.table[i].state == OPEN
  {
    assert Owns(s, u) <==> s.mgr == Some(u);
    assert Owns(s, v) <==> s.mgr == Some(v);
    assert OwnsBlock(s, u, i) <==> s.held[i] == Some(u);
    assert OwnsBlock(s, v, i) <==> s.held[i] == Some(v);
    EffectUnderLocks(s.threads[u], s.table, s.unicast, i);
  }

  /** Knowledge lasts as long as what it is about. */
  lemma StillJustified(pc: Pc, t: Table, t': Table)
    requires InRange(pc, |t|) && |t'| == |t| && Justified(pc, t)
    requires HoldsMgr(pc) ==> forall i :: 0 <= i < |t| ==> SameClaim(t[i], t'[i])
    requires forall i :: 0 <= i < |t| && HoldsBlock(pc, i) ==> t'[i].que == t[i].que
    requires forall i :: 0 <= i < |t| && t[i].interrupted ==> t'[i].interrupted
    requires forall i :: 0 <= i < |t| && t[i].state == OPEN ==> t'[i].state == OPEN
    ensures Justified(pc, t')
  {
    if pc.BindLockBlock? || pc.BindWrite? {
      SameEndpoints(t, t', pc.ip, pc.port);
    } else if pc.HandleLockBlock? || pc.HandleUnlockMgr? {
      SameEndpoints(t, t', pc.dst, pc.port);
    }
  }

  /** No other thread's knowledge is disturbed: what it knows is guarded by a lock it holds. */
  lemma OthersJustified(s: Sys, s': Sys, u: nat, v: nat)
    requires Inv(s) && Step(s, s', u) && v < |s.threads| && v != u && !s.threads[u].Idle?
    ensures Justified(s.threads[v], s'.table)
  {
    forall i | 0 <= i < TABLE_SIZE
      ensures HoldsMgr(s.threads[v]) ==> SameClaim(s.table[i], s'.table[i])
      ensures HoldsBlock(s.threads[v], i) ==> s'.table[i].que == s.table[i].que
      ensures s.table[i].interrupted ==> s'.table[i].interrupted
      ensures s.table[i].state == OPEN ==> s'.table[i].state == OPEN
    {
      OthersKeep(s, s', u, v, i);
    }
    StillJustified(s.threads[v], s.table, s'.table);
  }

  lemma StepJustified(s: Sys, s': Sys, u: nat)
    requires Inv(s) && Step(s, s', u) && WellFormed(s')
    ensures AllJustified(s')
  {
    if !s.threads[u].Idle? {
      StepperJustified(s.threads[u], s.table, s.unicast);
      forall v | 0 <= v < |s'.threads|
        ensures Justified(s'.threads[v], s'.table)
      {
        if v != u {
          OthersJustified(s, s', u, v);
        }
      }
    }
  }

  lemma StepConserved(s: Sys, s': Sys, u: nat)
    requires Inv(s) && Step(s, s', u) && WellFormed(s')
    ensures Conserved(s')
  {
    if !s.threads[u].Idle? {
      forall i | 0 <= i < TABLE_SIZE
        ensures s'.pushed[i] == s'.popped[i] + s'.table[i].que
      {
        EffectUnderLocks(s.threads[u], s.table, s.unicast, i);
        EffectOnQueue(s.threads[u], s.table, s.unicast, i);
      }
    }
  }

  /** The only queue changes are an append of the message and the removal of the front. */
  lemma EffectOnQueue(pc: Pc, t: Table, unicast: uint32, i: nat)
    requires InRange(pc, |t|) && i < |t|
    ensures Effect(pc, t, unicast)[i].que ==
            if pc.HandlePush? && pc.b == i then t[i].que + [pc.m]
            else if pc.RecvPop? && pc.b == i && t[i].que != [] then t[i].que[1..]
            else t[i].que
  {
  }

  lemma StepTable(s: Sys, s': Sys, u: nat)
    requires Inv(s) && Step(s, s', u)
    ensures OpenPrefix(s'.table, s'.opens) && UniqueEndpoints(s'.table)
  {
    var pc, t := s.threads[u], s.table;
    if !pc.Idle? {
      assert Justified(pc, t);
      EffectKeepsUnique(pc, t, s.unicast);
      EffectKeepsOrder(pc, t, s.unicast, s.opens);
      AllocKeepsOrder(t, s.opens);
    }
  }

  lemma EffectKeepsUnique(pc: Pc, t: Table, unicast: uint32)
    requires InRange(pc, |t|) && Justified(pc, t) && UniqueEndpoints(t)
    ensures UniqueEndpoints(Effect(pc, t, unicast))
  {
    if pc.BindWrite? {
      ClaimKeepsUnique(t, pc.b, pc.ip, IpEndpoint(pc.ip, pc.port));
    } else if pc.SendAssign? {
      AssignKeepsUnique(t, pc.b, unicast);
    } else if pc.OpenAlloc? {
      AllocKeepsUnique(t);
    } else {
      EffectOnQueuesOnly(pc, t, unicast);
      QueueKeepsUnique(t, Effect(pc, t, unicast));
    }
  }

  lemma EffectKeepsOrder(pc: Pc, t: Table, unicast: uint32, k: nat)
    requires InRange(pc, |t|) && OpenPrefix(t, k)
    ensures OpenPrefix(Effect(pc, t, unicast), if pc.OpenAlloc? && k < |t| then k + 1 else k)
  {
    if pc.OpenAlloc? {
      AllocKeepsOrder(t, k);
    } else {
      EffectOnStates(pc, t, unicast);
    }
  }

  lemma EffectOnStates(pc: Pc, t: Table, unicast: uint32)
    requires InRange(pc, |t|) && !pc.OpenAlloc?
    ensures var t' := Effect(pc, t, unicast);
            forall i :: 0 <= i < |t| ==> t[i].state == t'[i].state && t[i].id == t'[i].id
  {
  }

  lemma EffectOnQueuesOnly(pc: Pc, t: Table, unicast: uint32)
    requires InRange(pc, |t|) && !pc.BindWrite? && !pc.SendAssign? && !pc.OpenAlloc?
    ensures var t' := Effect(pc, t, unicast);
            forall i :: 0 <= i < |t| ==>
              SameClaim(t[i], t'[i]) && t[i].id == t'[i].id
  {
  }

  lemma QueueKeepsUnique(t: Table, t': Table)
    requires UniqueEndpoints(t) && |t| == |t'|
    requires forall i :: 0 <= i < |t| ==> SameClaim(t[i], t'[i])
    ensures UniqueEndpoints(t')
  {
    forall i, j | 0 <= i < j < |t'|
      ensures !SameEndpoint(t'[i], t'[j])
    {
      assert !SameEndpoint(t[i], t[j]);
    }
  }

  lemma StepInv(s: Sys, s': Sys, u: nat)
    requires Inv(s) && Step(s, s', u)
    ensures Inv(s')
  {
    StepWellFormed(s, s', u);
    StepLocks(s, s', u);
    StepJustified(s, s', u);
    StepConserved(s, s', u);
    StepTable(s, s', u);
  }

  lemma {:induction false} PathInv(run: seq<Sys>, i: nat)
    requires Path(run) && Inv(run[0]) && i < |run|
    ensures Inv(run[i])
  {
    if i > 0 {
      PathInv(run, i - 1);
      assert SomeStep(run[i - 1], run[i]);
      var u :| Step(run[i - 1], run[i], u);
      StepInv(run[i - 1], run[i], u);
    }
  }

  lemma LastStep(run: seq<Sys>, i: nat) returns (u: nat)
    requires Path(run) && Inv(run[0]) && 0 < i < |run|
    ensures Inv(run[i - 1]) && Inv(run[i]) && Step(run[i - 1], run[i], u)
  {
    PathInv(run, i - 1);
    PathInv(run, i);
    assert SomeStep(run[i - 1], run[i]);
    u :| Step(run[i - 1], run[i], u);
  }

  /** In every run, at every moment: locks are held by whom the code says, knowledge gained
      under a lock stays true, datagrams are conserved, blocks 0..opens are the open ones,
      and no two open blocks share an endpoint. */
  lemma RunInv(run: seq<Sys>, i: nat)
    requires Run(run) && i < |run|
    ensures Inv(run[i])
  {
    InitInv(run[0]);
    PathInv(run, i);
  }

  // ---------------------------------------------------------------- deadlock freedom

  /** Inside a call and not asleep on the condition variable. */
  predicate Active(pc: Pc) {
    !pc.Idle? && !pc.RecvSleep?
  }

  predicate CanStep(s: Sys, u: nat)
    requires WellFormed(s)
  {
    u < |s.threads| && Active(s.threads[u]) && Available(s, s.threads[u])
  }

  /** Whoever holds a block can step. */
  lemma BlockHolderCanStep(s: Sys, u: nat, i: nat)
    requires Inv(s) && i < TABLE_SIZE && s.held[i] == Some(u)
    ensures OwnsBlock(s, u, i) && CanStep(s, u)
  {
    assert OwnsBlock(s, u, i);
    LockOrder(s.threads[u], i);
  }

  /** If the manager is held, its holder or the one it waits for can step. */
  lemma ManagerHolderProgress(s: Sys, u: nat)
    requires Inv(s) && s.mgr == Some(u)
    ensures exists v :: CanStep(s, v) && (v == u || exists i :: 0 <= i < TABLE_SIZE && OwnsBlock(s, v, i))
  {
    assert Owns(s, u);
    var pc := s.threads[u];
    LockOrder(pc, 0);
    if Available(s, pc) {
      assert CanStep(s, u);
    } else {
      var i := Acquires(pc).value.i;
      BlockHolderCanStep(s, s.held[i].value, i);
    }
  }

  /** No run deadlocks: while some thread is inside a call and awake, some thread can step,
      and a thread that cannot step itself is kept by one that holds a lock. */
  lemma NoDeadlock(s: Sys, u: nat)
    requires Inv(s) && u < |s.threads| && Active(s.threads[u])
    ensures exists v :: CanStep(s, v) && (v == u || Owns(s, v) || exists i :: 0 <= i < TABLE_SIZE && OwnsBlock(s, v, i))
  {
    var pc := s.threads[u];
    if Available(s, pc) {
      assert CanStep(s, u);
    } else if Acquires(pc) == Some(Mgr) {
      assert Owns(s, s.mgr.value);
      ManagerHolderProgress(s, s.mgr.value);
    } else {
      var i := Acquires(pc).value.i;
      BlockHolderCanStep(s, s.held[i].value, i);
    }
  }

  /** Every write to a state or endpoint is done by the holder of the manager mutex, every
      push and pop by the holder of that block's mutex. */
  lemma WritesAreGuarded(s: Sys, s': Sys, u: nat, i: nat)
    requires Inv(s) && Step(s, s', u) && i < TABLE_SIZE
    ensures s'.table[i].state != s.table[i].state || s'.table[i].endpoint != s.table[i].endpoint ==> s.mgr == Some(u)
    ensures s'.table[i].que != s.table[i].que || s'.pushed[i] != s.pushed[i] || s'.popped[i] != s.popped[i]
            ==> s.held[i] == Some(u)
  {
    assert Owns(s, u) <==> s.mgr == Some(u);
    assert OwnsBlock(s, u, i) <==> s.held[i] == Some(u);
    if !s.threads[u].Idle? {
      EffectUnderLocks(s.threads[u], s.table, s.unicast, i);
    }
  }

  // ---------------------------------------------------------------- the interrupted flag

  /** A flag is raised by the event's write to that block, and by nothing else. */
  lemma EffectOnFlag(pc: Pc, t: Table, unicast: uint32, i: nat)
    requires InRange(pc, |t|) && i < |t|
    ensures Effect(pc, t, unicast)[i].interrupted <==> t[i].interrupted || pc == EventSet(i)
  {
  }

  lemma StepFlag(s: Sys, s': Sys, u: nat, i: nat)
    requires Inv(s) && Step(s, s', u) && i < TABLE_SIZE
    ensures i < |s'.table|
    ensures s'.table[i].interrupted <==> s.table[i].interrupted || s.threads[u] == EventSet(i)
    ensures s.threads[u] == EventSet(i) ==> s.table[i].state == OPEN
  {
    if !s.threads[u].Idle? {
      assert Justified(s.threads[u], s.table);
      EffectOnFlag(s.threads[u], s.table, s.unicast, i);
    }
  }

  predicate Sets(s: Sys, s': Sys, u: nat, i: nat) {
    Step(s, s', u) && s.threads[u] == EventSet(i)
  }

  ghost predicate SomeSets(s: Sys, s': Sys, i: nat) {
    exists u :: Sets(s, s', u, i)
  }

  /** Step k of the run is an event's write to block i. */
  ghost predicate SetAt(run: seq<Sys>, k: nat, i: nat) {
    k + 1 < |run| && SomeSets(run[k], run[k + 1], i)
  }

  ghost predicate SetBefore(run: seq<Sys>, j: nat, i: nat) {
    exists k: nat :: k < j && SetAt(run, k, i)
  }

  lemma SetBeforeLast(run: seq<Sys>, j: nat, i: nat)
    requires j > 0
    ensures SetBefore(run, j, i) <==> SetBefore(run, j - 1, i) || SetAt(run, j - 1, i)
  {
    if k: nat :| k < j && SetAt(run, k, i) {
      assert k == j - 1 || SetBefore(run, j - 1, i);
    }
  }

  /** In every run, a block's flag is raised if and only if an event has written it before, while
      the block was open; so until then no recvFrom fails. */
  lemma {:induction false} FlagExactly(run: seq<Sys>, j: nat, i: nat)
    requires Run(run) && j < |run| && i < TABLE_SIZE
    ensures |run[j].table| == TABLE_SIZE
    ensures run[j].table[i].interrupted <==> SetBefore(run, j, i)
    ensures run[j].table[i].interrupted ==> run[j].table[i].state == OPEN
  {
    RunInv(run, j);
    if j > 0 {
      FlagExactly(run, j - 1, i);
      SetBeforeLast(run, j, i);
      InitInv(run[0]);
      LastFlag(run, j, i);
    }
  }

  lemma LastFlag(run: seq<Sys>, j: nat, i: nat)
    requires Path(run) && Inv(run[0]) && 0 < j < |run| && i < TABLE_SIZE
    ensures |run[j - 1].table| == |run[j].table| == TABLE_SIZE
    ensures run[j].table[i].interrupted <==> run[j - 1].table[i].interrupted || SetAt(run, j - 1, i)
    ensures run[j].table[i].interrupted && !run[j - 1].table[i].interrupted ==> run[j].table[i].state == OPEN
    ensures run[j - 1].table[i].state == OPEN ==> run[j].table[i].state == OPEN
  {
    var u := LastStep(run, j);
    SettersAgree(run[j - 1], run[j], u, i);
    StepMonotone(run[j - 1], run[j], u);
  }

  lemma SettersAgree(s: Sys, s': Sys, u: nat, i: nat)
    requires Inv(s) && Step(s, s', u) && i < TABLE_SIZE
    ensures i < |s'.table|
    ensures s'.table[i].interrupted <==> s.table[i].interrupted || SomeSets(s, s', i)
    ensures s'.table[i].interrupted && !s.table[i].interrupted ==> s.table[i].state == OPEN
  {
    StepFlag(s, s', u, i);
    if s.threads[u] == EventSet(i) {
      assert Sets(s, s', u, i);
    } else if v :| Sets(s, s', v, i) {
      StepFlag(s, s', v, i);
    }
  }

  // ---------------------------------------------------------------- receiving

  /** Thread u has committed to taking, or has taken, a datagram of block b. */
  predicate Committed(s: Sys, u: nat, b: nat) {
    u < |s.threads| && TakesFrom(s.threads[u], b)
  }

  lemma StepAfterInterrupt(s: Sys, s': Sys, u: nat, v: nat, b: nat)
    requires Inv(s) && Step(s, s', u) && b < TABLE_SIZE && s.table[b].interrupted
    ensures s'.table[b].interrupted
    ensures !Committed(s, v, b) ==> !Committed(s', v, b)
  {
    if !s.threads[u].Idle? {
      EffectUnderLocks(s.threads[u], s.table, s.unicast, b);
      if !TakesFrom(s.threads[u], b) {
        NextNotCommitted(s.threads[u], s.table, b);
      }
    }
  }

  predicate TakesFrom(pc: Pc, b: nat) {
    pc == RecvPop(b) || pc == RecvTaken(b)
  }

  /** On an interrupted block, the decision of a woken recvFrom falls on failure. */
  lemma NextNotCommitted(pc: Pc, t: Table, b: nat)
    requires !pc.Idle? && InRange(pc, |t|) && b < |t| && t[b].interrupted && !TakesFrom(pc, b)
    ensures !TakesFrom(Next(pc, t), b)
  {
  }

  lemma UncommittedTakesNothing(s: Sys, s': Sys, u: nat, b: nat)
    requires Inv(s) && Step(s, s', u) && b < TABLE_SIZE && !Committed(s, u, b)
    ensures s'.popped[b] == s.popped[b] && s.table[b].que <= s'.table[b].que
  {
    if !s.threads[u].Idle? {
      EffectOnQueue(s.threads[u], s.table, s.unicast, b);
    }
  }

  /** Once a block is interrupted it stays so, and a recvFrom that has not yet committed to
      a datagram never does: all it can return is -1. */
  lemma {:induction false} AfterInterrupt(run: seq<Sys>, i: nat, u: nat, b: nat)
    requires Path(run) && Inv(run[0]) && i < |run| && b < TABLE_SIZE && run[0].table[b].interrupted
    ensures Inv(run[i]) && run[i].table[b].interrupted
    ensures !Committed(run[0], u, b) ==> !Committed(run[i], u, b)
  {
    if i > 0 {
      AfterInterrupt(run, i - 1, u, b);
      var v := LastStep(run, i);
      StepAfterInterrupt(run[i - 1], run[i], v, u, b);
    }
  }

  /** From s0 to s' by way of s, with nothing taken from block b. */
  predicate Untaken(s0: Sys, s: Sys, b: nat) {
    && b < |s0.popped| && b < |s.popped| && b < |s0.table| && b < |s.table|
    && s.popped[b] == s0.popped[b] && s0.table[b].que <= s.table[b].que
  }

  lemma StillUntaken(s0: Sys, s: Sys, s': Sys, u: nat, b: nat)
    requires Inv(s) && Step(s, s', u) && b < TABLE_SIZE && !Committed(s, u, b) && Untaken(s0, s, b)
    ensures Untaken(s0, s', b)
  {
    StepWellFormed(s, s', u);
    UncommittedTakesNothing(s, s', u, b);
  }

  lemma NeverCommitted(run: seq<Sys>, i: nat, u: nat, b: nat)
    requires Path(run) && Inv(run[0]) && i < |run| && b < TABLE_SIZE && run[0].table[b].interrupted
    requires !Committed(run[0], u, b)
    ensures !Committed(run[i], u, b)
  {
    AfterInterrupt(run, i, u, b);
  }

  lemma LastStepUncommitted(run: seq<Sys>, i: nat, b: nat) returns (v: nat)
    requires Path(run) && Inv(run[0]) && 0 < i < |run| && b < TABLE_SIZE && run[0].table[b].interrupted
    requires forall u :: !Committed(run[0], u, b)
    ensures Inv(run[i - 1]) && Step(run[i - 1], run[i], v) && !Committed(run[i - 1], v, b)
  {
    v := LastStep(run, i);
    NeverCommitted(run, i - 1, v, b);
  }

  /** ... and from then on nothing is consumed: what was taken stays as it is and the queue only grows. */
  lemma {:induction false} NothingTakenAfterInterrupt(run: seq<Sys>, i: nat, b: nat)
    requires Path(run) && Inv(run[0]) && i < |run| && b < TABLE_SIZE && run[0].table[b].interrupted
    requires forall u :: !Committed(run[0], u, b)
    ensures Untaken(run[0], run[i], b)
  {
    if i > 0 {
      NothingTakenAfterInterrupt(run, i - 1, b);
      var v := LastStepUncommitted(run, i, b);
      StillUntaken(run[0], run[i - 1], run[i], v, b);
    }
  }

  // ---------------------------------------------------------------- returning from recvFrom

  predicate InRecv(pc: Pc) {
    pc.RecvLockMgr? || pc.RecvUnlockMgr? || pc.RecvLockBlock? || pc.RecvCheck? || pc.RecvRelease? || pc.RecvSleep? ||
    pc.RecvDecide? || pc.RecvPop? || pc.RecvTaken? || pc.RecvFailed?
  }

  /** Inside recvFrom on block b. */
  predicate Receiving(pc: Pc, b: nat) {
    InRecv(pc) && pc.b == b
  }

  lemma RecvNext(pc: Pc, t: Table, b: nat)
    requires Receiving(pc, b) && b < |t|
    ensures Receiving(Next(pc, t), b) || (Next(pc, t) == Idle && (pc == RecvTaken(b) || pc == RecvFailed(b)))
    ensures Next(pc, t) == RecvTaken(b) ==> pc == RecvPop(b)
  {
  }

  /** By step k, thread u takes the front of block b's queue. */
  predicate PopsAt(run: seq<Sys>, k: nat, u: nat, b: nat) {
    k + 1 < |run| && Pops(run[k], run[k + 1], u, b)
  }

  predicate Pops(s: Sys, s': Sys, u: nat, b: nat) {
    && u < |s.threads| && s.threads[u] == RecvPop(b) && b < |s.table| && s.table[b].que != []
    && b < |s.popped| && b < |s'.popped| && s'.popped[b] == s.popped[b] + [s.table[b].que[0]]
  }

  /** Thread u's own step within recvFrom. */
  lemma StepReceiving(s: Sys, s': Sys, v: nat, u: nat, b: nat)
    requires Inv(s) && Step(s, s', v) && u < |s.threads| && b < TABLE_SIZE && Receiving(s.threads[u], b)
    ensures u < |s'.threads|
    ensures s'.threads[u] == RecvTaken(b) ==> s.threads[u] == RecvTaken(b) || Pops(s, s', u, b)
    ensures s'.threads[u] == Idle ==> s.threads[u] == RecvTaken(b) || s.table[b].interrupted
  {
    assert Justified(s.threads[u], s.table);
    RecvNext(s.threads[u], s.table, b);
  }

  lemma {:induction false} TakenWasPopped(run: seq<Sys>, i: nat, u: nat, b: nat)
    requires Path(run) && Inv(run[0]) && i < |run| && b < TABLE_SIZE
    requires u < |run[0].threads| && run[0].threads[u] == RecvLockMgr(b)
    requires forall k :: 0 <= k < i ==> u < |run[k].threads| && Receiving(run[k].threads[u], b)
    ensures Inv(run[i]) && u < |run[i].threads|
    ensures run[i].threads[u] == RecvTaken(b) ==> exists k: nat :: k < i && PopsAt(run, k, u, b)
  {
    PathInv(run, i);
    if i > 0 {
      TakenWasPopped(run, i - 1, u, b);
      var v := LastStep(run, i);
      StepReceiving(run[i - 1], run[i], v, u, b);
      assert Pops(run[i - 1], run[i], u, b) ==> PopsAt(run, i - 1, u, b);
    }
  }

  /** recvFrom does not return empty-handed: when it has returned, it has taken the front of
      its queue, or its block has been interrupted. */
  lemma RecvReturns(run: seq<Sys>, i: nat, u: nat, b: nat)
    requires Path(run) && Inv(run[0]) && 0 < i < |run| && b < TABLE_SIZE
    requires u < |run[0].threads| && run[0].threads[u] == RecvLockMgr(b)
    requires forall k :: 0 <= k < i ==> u < |run[k].threads| && Receiving(run[k].threads[u], b)
    requires u < |run[i].threads| && run[i].threads[u] == Idle
    ensures |run[i - 1].table| == TABLE_SIZE
    ensures (exists k: nat :: k < i && PopsAt(run, k, u, b)) || run[i - 1].table[b].interrupted
  {
    TakenWasPopped(run, i - 1, u, b);
    var v := LastStep(run, i);
    StepReceiving(run[i - 1], run[i], v, u, b);
  }

  // ---------------------------------------------------------------- delivering

  /** The handler leaves the manager's lock for a block that at this moment is the one a lookup
      of the datagram's destination finds, and then appends the datagram to its queue. */
  lemma DeliversToSelected(s: Sys, s': Sys, u: nat)
    requires Inv(s) && Step(s, s', u)
    ensures s.threads[u].HandleUnlockMgr? ==>
              var pc := s.threads[u];
              Select(s'.table, pc.dst, pc.port) == Some(pc.b) && s'.threads[u] == HandlePush(pc.b, pc.m)
              && s'.held[pc.b] == Some(u)
    ensures s.threads[u].HandlePush? ==>
              var pc := s.threads[u];
              s'.table == Push(s.table, pc.b, pc.m) && s'.pushed[pc.b] == s.pushed[pc.b] + [pc.m]
  {
    var pc := s.threads[u];
    if pc.HandleUnlockMgr? {
      assert Justified(pc, s.table);
      assert OwnsBlock(s, u, pc.b) <==> s.held[pc.b] == Some(u);
    }
  }

  /** Per-block FIFO over any stretch of a run: what is taken during it, followed by what is
      queued at its end, is what was queued at its start followed by what is pushed during it. */
  lemma {:induction false} FifoConservation(run: seq<Sys>, i: nat, b: nat)
    requires Path(run) && Inv(run[0]) && i < |run| && b < TABLE_SIZE
    ensures Inv(run[i])
    ensures run[0].pushed[b] <= run[i].pushed[b] && run[0].popped[b] <= run[i].popped[b]
    ensures var pushed := run[i].pushed[b][|run[0].pushed[b]|..];
            var popped := run[i].popped[b][|run[0].popped[b]|..];
            popped + run[i].table[b].que == run[0].table[b].que + pushed
  {
    HistoriesGrow(run, i, b);
    PathInv(run, i);
    var a, z := run[0], run[i];
    var pushed, popped := z.pushed[b][|a.pushed[b]|..], z.popped[b][|a.popped[b]|..];
    assert a.pushed[b] == a.popped[b] + a.table[b].que && z.pushed[b] == z.popped[b] + z.table[b].que;
    CancelPrefix(a.popped[b], a.table[b].que, pushed, popped, z.table[b].que);
  }

  lemma CancelPrefix<T>(p: seq<T>, q: seq<T>, r: seq<T>, x: seq<T>, y: seq<T>)
    requires (p + q) + r == (p + x) + y
    ensures q + r == x + y
  {
    assert ((p + q) + r)[|p|..] == q + r;
    assert ((p + x) + y)[|p|..] == x + y;
  }

  lemma StepGrows(s: Sys, s': Sys, u: nat, b: nat)
    requires WellFormed(s) && Step(s, s', u) && b < TABLE_SIZE
    ensures |s'.pushed| == |s'.popped| == TABLE_SIZE
    ensures s.pushed[b] <= s'.pushed[b] && s.popped[b] <= s'.popped[b]
  {
  }

  /** From s0 to s' by way of s. */
  lemma StillGrows(s0: Sys, s: Sys, s': Sys, u: nat, b: nat)
    requires WellFormed(s0) && Inv(s) && Step(s, s', u) && b < TABLE_SIZE
    requires s0.pushed[b] <= s.pushed[b] && s0.popped[b] <= s.popped[b]
    ensures |s'.pushed| == |s'.popped| == TABLE_SIZE
    ensures s0.pushed[b] <= s'.pushed[b] && s0.popped[b] <= s'.popped[b]
  {
    StepGrows(s, s', u, b);
  }

  lemma {:induction false} HistoriesGrow(run: seq<Sys>, i: nat, b: nat)
    requires Path(run) && Inv(run[0]) && i < |run| && b < TABLE_SIZE
    ensures Inv(run[i])
    ensures run[0].pushed[b] <= run[i].pushed[b] && run[0].popped[b] <= run[i].popped[b]
  {
    if i > 0 {
      HistoriesGrow(run, i - 1, b);
      var v := LastStep(run, i);
      StillGrows(run[0], run[i - 1], run[i], v, b);
    }
  }

  // ---------------------------------------------------------------- interrupting

  /** Thread u is in the loop of `interruptAll`, or just at its end. */
  predicate Scanning(s: Sys, u: nat) {
    u < |s.threads| &&
    (s.threads[u].EventScan? || s.threads[u].EventLockBlock? || s.threads[u].EventUnlockBlock? || s.threads[u].EventSet?)
  }

  /** The blocks below the loop's position that were open in t have been interrupted. */
  predicate Reached(t: Table, s: Sys, u: nat)
    requires Scanning(s, u)
  {
    forall k :: 0 <= k < |t| && k < |s.table| && k < s.threads[u].b && t[k].state == OPEN ==> s.table[k].interrupted
  }

  /** No step closes a block or takes an interrupt back. */
  lemma StepMonotone(s: Sys, s': Sys, v: nat)
    requires Inv(s) && Step(s, s', v)
    ensures |s'.table| == |s.table|
    ensures forall k :: 0 <= k < |s.table| && s.table[k].interrupted ==> s'.table[k].interrupted
    ensures forall k :: 0 <= k < |s.table| && s.table[k].state == OPEN ==> s'.table[k].state == OPEN
  {
    if !s.threads[v].Idle? {
      forall k | 0 <= k < |s.table|
        ensures s.table[k].interrupted ==> s'.table[k].interrupted
        ensures s.table[k].state == OPEN ==> s'.table[k].state == OPEN
      {
        EffectUnderLocks(s.threads[v], s.table, s.unicast, k);
      }
    }
  }

  /** The loop passes a block only if it is not open or has been interrupted. */
  lemma ScanMoves(pc: Pc, t: Table, unicast: uint32, k: nat)
    requires InRange(pc, |t|) && k < |t| && t[k].state == OPEN
    requires pc.EventScan? || pc.EventLockBlock? || pc.EventUnlockBlock? || pc.EventSet?
    ensures var pc' := Next(pc, t); pc'.Idle? || k < pc.b || pc'.b <= k || Effect(pc, t, unicast)[k].interrupted
  {
  }

  lemma StepReaches(t: Table, s: Sys, s': Sys, u: nat, v: nat)
    requires Inv(s) && Step(s, s', v) && Scanning(s, u) && Scanning(s', u) && Reached(t, s, u)
    requires |t| == |s.table| && forall k :: 0 <= k < |t| && t[k].state == OPEN ==> s.table[k].state == OPEN
    ensures Reached(t, s', u)
  {
    StepMonotone(s, s', v);
    forall k | 0 <= k < |t| && k < s'.threads[u].b && t[k].state == OPEN
      ensures s'.table[k].interrupted
    {
      if u == v {
        ScanMoves(s.threads[u], s.table, s.unicast, k);
      }
    }
  }

  /** One pass of `interruptAll`, whatever runs beside it, interrupts every block that was open when it began. */
  lemma {:induction false} EventReachesAll(run: seq<Sys>, i: nat, u: nat)
    requires Path(run) && Inv(run[0]) && i < |run|
    requires u < |run[0].threads| && run[0].threads[u] == EventScan(0)
    requires forall k :: 0 <= k <= i ==> Scanning(run[k], u)
    ensures |run[i].table| == |run[0].table| && Reached(run[0].table, run[i], u)
    ensures forall k :: 0 <= k < |run[0].table| && run[0].table[k].state == OPEN ==> run[i].table[k].state == OPEN
  {
    if i > 0 {
      EventReachesAll(run, i - 1, u);
      var v := LastStep(run, i);
      StepMonotone(run[i - 1], run[i], v);
      StepReaches(run[0].table, run[i - 1], run[i], u, v);
    }
  }

  /** ... so at the end of its loop every block that was open when it began is interrupted. */
  lemma ScanEndsWithAllInterrupted(run: seq<Sys>, i: nat, u: nat)
    requires Path(run) && Inv(run[0]) && i < |run|
    requires u < |run[0].threads| && run[0].threads[u] == EventScan(0)
    requires forall k :: 0 <= k <= i ==> Scanning(run[k], u)
    requires Scanning(run[i], u) && run[i].threads[u] == EventScan(TABLE_SIZE)
    ensures |run[i].table| == |run[0].table| == TABLE_SIZE
    ensures forall k :: 0 <= k < TABLE_SIZE && run[0].table[k].state == OPEN ==> run[i].table[k].interrupted
  {
    EventReachesAll(run, i, u);
  }

  // ---------------------------------------------------------------- binding

  /** The step in which bind writes the endpoint makes the block the one that is found there. */
  lemma BindSucceeds(s: Sys, s': Sys, u: nat)
    requires Inv(s) && Step(s, s', u) && s.threads[u].BindWrite?
    ensures var pc := s.threads[u];
            s'.table[pc.b].endpoint == IpEndpoint(pc.ip, pc.port) && Select(s'.table, pc.ip, pc.port) == Some(pc.b)
  {
    var pc := s.threads[u];
    assert Justified(pc, s.table);
    BoundIsSelected(s.table, pc.b, pc.ip, pc.port);
  }

  /** The step in which sendTo settles its endpoint leaves it with a port; a new one is among
      the first hundred candidates and was nobody's at the address sent from. */
  lemma SendAssigns(s: Sys, s': Sys, u: nat)
    requires Inv(s) && Step(s, s', u) && s.threads[u].SendAssign?
    ensures var b := s.threads[u].b;
            var port, port' := s.table[b].endpoint.port, s'.table[b].endpoint.port;
            if port != 0 then port' == port
            else SOURCE_PORT_MIN <= port' < SOURCE_PORT_MIN + TABLE_SIZE
                 && Unmatched(s.table, LocalAddress(s.table[b], s.unicast), port')
  {
    var b := s.threads[u].b;
    if s.table[b].endpoint.port == 0 {
      EphemeralPortExists(s.table, LocalAddress(s.table[b], s.unicast), b);
    }
  }

  predicate Binding(pc: Pc) {
    pc.BindLockMgr? || pc.BindSelect? || pc.BindLockBlock? || pc.BindWrite?
  }

  /** Nobody is inside a bind to 0.0.0.0, and the owner is not rebinding. */
  predicate Calm(s: Sys, owner: nat) {
    forall u :: 0 <= u < |s.threads| && Binding(s.threads[u]) ==>
      s.threads[u].ip != IP_ADDR_ANY && s.threads[u].b != owner
  }

  /** The owner holds (unicast, port), and traffic for it is delivered to the owner. */
  predicate Secured(s: Sys, owner: nat, port: uint16) {
    && owner < |s.table| && port != 0
    && s.table[owner].state == OPEN && s.table[owner].endpoint == IpEndpoint(s.unicast, port)
    && Select(s.table, s.unicast, port) == Some(owner)
  }

  /** Wherever a block newly answers for (unicast, port), a lookup there had found nothing before. */
  lemma NewMatchWasUnmatched(pc: Pc, t: Table, unicast: uint32, port: uint16, i: nat)
    requires InRange(pc, |t|) && Justified(pc, t) && i < |t| && port != 0
    requires pc.BindWrite? ==> pc.ip != IP_ADDR_ANY
    requires !Matches(t[i], unicast, port) && Matches(Effect(pc, t, unicast)[i], unicast, port)
    ensures Unmatched(t, unicast, port)
  {
    if !pc.BindWrite? && !pc.SendAssign? && !pc.OpenAlloc? {
      EffectOnQueuesOnly(pc, t, unicast);
    }
  }

  lemma StepKeepsSecured(s: Sys, s': Sys, u: nat, owner: nat, port: uint16)
    requires Inv(s) && Step(s, s', u) && Calm(s, owner) && Secured(s, owner, port)
    ensures Secured(s', owner, port)
  {
    var pc := s.threads[u];
    assert Matches(s.table[owner], s.unicast, port);
    if !pc.Idle? {
      assert Justified(pc, s.table);
      OwnerUntouched(s, pc, owner);
      forall i | 0 <= i < owner
        ensures !Matches(s'.table[i], s.unicast, port)
      {
        assert !Matches(s.table[i], s.unicast, port);
        if Matches(s'.table[i], s.unicast, port) {
          NewMatchWasUnmatched(pc, s.table, s.unicast, port, i);
        }
      }
      assert Matches(s'.table[owner], s.unicast, port);
    }
  }

  lemma OwnerUntouched(s: Sys, pc: Pc, owner: nat)
    requires WellFormed(s) && InRange(pc, |s.table|) && owner < |s.table| && pc in s.threads && Calm(s, owner)
    requires s.table[owner].state == OPEN && s.table[owner].endpoint.port != 0
    ensures Effect(pc, s.table, s.unicast)[owner].endpoint == s.table[owner].endpoint
    ensures Effect(pc, s.table, s.unicast)[owner].state == OPEN
  {
  }

  /** No endpoint theft: through everything that other threads do, ephemeral ports included,
      an owner of (unicast, port) keeps its endpoint and its traffic, as long as nobody binds
      to 0.0.0.0 and the owner does not rebind. */
  lemma {:induction false} NoTheft(run: seq<Sys>, i: nat, owner: nat, port: uint16)
    requires Path(run) && Inv(run[0]) && i < |run| && Secured(run[0], owner, port)
    requires forall k :: 0 <= k < i ==> Calm(run[k], owner)
    ensures Secured(run[i], owner, port) && run[i].unicast == run[0].unicast
  {
    if i > 0 {
      NoTheft(run, i - 1, owner, port);
      var v := LastStep(run, i);
      StepKeepsSecured(run[i - 1], run[i], v, owner, port);
    }
  }

  /** In every run, whoever holds (ip, port) is the one served there, unless a block before it
      holds (0.0.0.0, port): this is the exact price of the bind that Calm excludes. */
  lemma OwnerServedExactly(run: seq<Sys>, i: nat, owner: nat, ip: uint32, port: uint16)
    requires Run(run) && i < |run| && owner < |run[i].table| && port != 0
    requires run[i].table[owner].state == OPEN && run[i].table[owner].endpoint == IpEndpoint(ip, port)
    ensures Select(run[i].table, ip, port) == Some(owner) <==>
            forall k :: 0 <= k < owner ==>
              !(run[i].table[k].state == OPEN && run[i].table[k].endpoint == IpEndpoint(IP_ADDR_ANY, port))
  {
    RunInv(run, i);
    OwnerIsSelected(run[i].table, owner, ip, port);
  }
}
