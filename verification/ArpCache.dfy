/** The ARP cache: a list searched from the front, to which `create` appends after a check
    that it makes under a lock of its own. */
module ArpCache {
  import opened Wrappers
  import opened Bytes

  datatype CacheData = CacheData(protocolAddress: uint32, hardwareAddress: bytes)

  type Entries = seq<CacheData>

  /** `select`: the first entry for the address. */
  function Find(cache: Entries, ip: uint32): Option<bytes> {
    if cache == [] then None
    else if cache[0].protocolAddress == ip then Some(cache[0].hardwareAddress)
    else Find(cache[1..], ip)
  }

  function Create(cache: Entries, c: CacheData): Entries {
    if Find(cache, c.protocolAddress).Some? then cache else cache + [c]
  }

  lemma {:induction false} FindIsFirst(cache: Entries, i: nat, ip: uint32)
    requires i <= |cache| && forall k :: 0 <= k < i ==> cache[k].protocolAddress != ip
    ensures i < |cache| && cache[i].protocolAddress == ip ==> Find(cache, ip) == Some(cache[i].hardwareAddress)
    ensures i == |cache| ==> Find(cache, ip) == None
  {
    if i > 0 {
      FindIsFirst(cache[1..], i - 1, ip);
    }
  }

  class ArpCache {
    var cache: Entries

    constructor ()
      ensures cache == []
    {
      cache := [];
    }

    method Select(ip: uint32) returns (r: Option<CacheData>)
      ensures Find(cache, ip) == if r.Some? then Some(r.value.hardwareAddress) else None
      ensures r.Some? ==> r.value in cache && r.value.protocolAddress == ip
    {
      var i := 0;
      while i < |cache|
        invariant 0 <= i <= |cache|
        invariant forall k :: 0 <= k < i ==> cache[k].protocolAddress != ip
      {
        if cache[i].protocolAddress == ip {
          FindIsFirst(cache, i, ip);
          return Some(cache[i]);
        }
        i := i + 1;
      }
      FindIsFirst(cache, i, ip);
      r := None;
    }

    method Insert(c: CacheData)
      modifies this
      ensures cache == Create(old(cache), c)
    {
      var d := Select(c.protocolAddress);
      if d.Some? {
        return;
      }
      cache := cache + [c];
    }
  }

  // ---------------------------------------------------------------- a map underneath

  type View = map<uint32, bytes>

  function PutIfAbsent(m: View, c: CacheData): View {
    if c.protocolAddress in m then m else m[c.protocolAddress := c.hardwareAddress]
  }

  /** The map that a series of put-if-absent operations builds. */
  function Built(log: Entries): View {
    if log == [] then map[] else PutIfAbsent(Built(log[..|log| - 1]), log[|log| - 1])
  }

  /** The list is a faithful representation of the map that its own entries build. */
  lemma {:induction false} FindAppend(cache: Entries, c: CacheData, ip: uint32)
    ensures Find(cache + [c], ip) ==
            if Find(cache, ip).Some? then Find(cache, ip)
            else if c.protocolAddress == ip then Some(c.hardwareAddress) else None
  {
    if cache == [] {
      assert (cache + [c])[1..] == [];
    } else {
      FindAppend(cache[1..], c, ip);
      assert (cache + [c])[1..] == cache[1..] + [c];
    }
  }

  predicate Represents(cache: Entries, m: View, ip: uint32) {
    Find(cache, ip) == if ip in m then Some(m[ip]) else None
  }

  // ---------------------------------------------------------------- interleaved creates

  /** A thread is outside, or has found its address missing and is about to append. */
  datatype Pc = Outside | Appending(c: CacheData)

  /** `log` lists the creates in the order in which they took effect. */
  datatype Shared = Shared(cache: Entries, threads: seq<Pc>, log: Entries)

  ghost predicate Init(s: Shared) {
    s.cache == [] && s.log == [] && forall u :: 0 <= u < |s.threads| ==> s.threads[u] == Outside
  }

  /** The first lock region of `create(c)`: look; a create that finds its address ends here. */
  predicate Check(s: Shared, s': Shared, u: nat, c: CacheData) {
    && u < |s.threads| && s.threads[u] == Outside
    && s' == if Find(s.cache, c.protocolAddress).Some? then s.(log := s.log + [c])
             else s.(threads := s.threads[u := Appending(c)])
  }

  /** The second lock region: append, whatever has happened meanwhile. */
  predicate Append(s: Shared, s': Shared, u: nat) {
    && u < |s.threads| && s.threads[u].Appending?
    && s' == Shared(s.cache + [s.threads[u].c], s.threads[u := Outside], s.log + [s.threads[u].c])
  }

  /** Without anything in between, the two regions are `create`. */
  lemma CheckThenAppendIsCreate(s: Shared, s': Shared, s'': Shared, u: nat, c: CacheData)
    requires Check(s, s', u, c)
    requires if s'.threads[u].Appending? then Append(s', s'', u) else s'' == s'
    ensures s''.cache == Create(s.cache, c) && s''.log == s.log + [c] && s''.threads == s.threads
  {
    assert s.threads[u := Appending(c)][u := Outside] == s.threads;
  }

  ghost predicate Step(s: Shared, s': Shared) {
    (exists u: nat, c: CacheData :: Check(s, s', u, c)) || (exists u: nat :: Append(s, s', u))
  }

  ghost predicate Path(run: seq<Shared>) {
    |run| > 0 && forall i :: 0 < i < |run| ==> Step(run[i - 1], run[i])
  }

  ghost predicate Refines(s: Shared) {
    forall ip: uint32 :: Represents(s.cache, Built(s.log), ip)
  }

  lemma BuiltAppend(log: Entries, c: CacheData)
    ensures Built(log + [c]) == PutIfAbsent(Built(log), c)
  {
    assert (log + [c])[..|log|] == log;
  }

  /** Each step either leaves the map alone or is one put-if-absent on it; what a lookup
      returned before, it returns after. */
  lemma StepRefines(s: Shared, s': Shared)
    requires Refines(s) && Step(s, s')
    ensures Refines(s')
    ensures forall ip: uint32 :: Find(s.cache, ip).Some? ==> Find(s'.cache, ip) == Find(s.cache, ip)
  {
    if u: nat, c: CacheData :| Check(s, s', u, c) {
      BuiltAppend(s.log, c);
      assert Represents(s.cache, Built(s.log), c.protocolAddress);
      assert forall ip: uint32 :: Represents(s.cache, Built(s.log), ip) ==> Represents(s'.cache, Built(s'.log), ip);
    } else {
      var u: nat :| Append(s, s', u);
      var c := s.threads[u].c;
      BuiltAppend(s.log, c);
      forall ip: uint32
        ensures Represents(s'.cache, Built(s'.log), ip)
        ensures Find(s.cache, ip).Some? ==> Find(s'.cache, ip) == Find(s.cache, ip)
      {
        assert Represents(s.cache, Built(s.log), ip);
        FindAppend(s.cache, c, ip);
      }
    }
  }

  /** With any number of threads in `create`, the list shows at every moment the map that
      the creates build by put-if-absent in the order in which they took effect. */
  lemma {:induction false} RunRefines(run: seq<Shared>, i: nat)
    requires Path(run) && Init(run[0]) && i < |run|
    ensures Refines(run[i])
  {
    if i > 0 {
      RunRefines(run, i - 1);
      StepRefines(run[i - 1], run[i]);
    }
  }

  /** Once `select(ip)` has returned an address, it returns that address for ever. */
  lemma {:induction false} SelectIsStable(run: seq<Shared>, i: nat, j: nat, ip: uint32)
    requires Path(run) && Init(run[0]) && i <= j < |run| && Find(run[i].cache, ip).Some?
    ensures Find(run[j].cache, ip) == Find(run[i].cache, ip)
  {
    if i < j {
      SelectIsStable(run, i, j - 1, ip);
      RunRefines(run, j - 1);
      StepRefines(run[j - 1], run[j]);
    }
  }

  predicate UniqueKeys(cache: Entries) {
    forall i, j :: 0 <= i < j < |cache| ==> cache[i].protocolAddress != cache[j].protocolAddress
  }

  lemma {:induction false} FindNone(cache: Entries, ip: uint32)
    ensures Find(cache, ip).None? <==> forall i :: 0 <= i < |cache| ==> cache[i].protocolAddress != ip
  {
    if cache != [] {
      FindNone(cache[1..], ip);
      assert forall i :: 1 <= i < |cache| ==> cache[i] == cache[1..][i - 1];
    }
  }

  // ---------------------------------------------------------------- when keys stay unique

  predicate Pending(t: Pc, ip: uint32) {
    t.Appending? && t.c.protocolAddress == ip
  }

  /** Two creates for the same address are both about to append. */
  ghost predicate Overlap(s: Shared) {
    exists u, v :: 0 <= u < v < |s.threads| && SamePending(s.threads[u], s.threads[v])
  }

  predicate SamePending(t: Pc, t': Pc) {
    t.Appending? && t'.Appending? && t.c.protocolAddress == t'.c.protocolAddress
  }

  /** Keys are unique, and whoever is about to append does not find its address in the list. */
  predicate Settled(s: Shared) {
    && UniqueKeys(s.cache)
    && forall u :: 0 <= u < |s.threads| && s.threads[u].Appending? ==>
         Find(s.cache, s.threads[u].c.protocolAddress).None?
  }

  /** A step out of a state without overlap keeps both. */
  lemma StepSettled(s: Shared, s': Shared)
    requires Settled(s) && Step(s, s') && !Overlap(s)
    ensures Settled(s')
  {
    if u: nat, c: CacheData :| Check(s, s', u, c) {
    } else {
      var u: nat :| Append(s, s', u);
      var c := s.threads[u].c;
      FindNone(s.cache, c.protocolAddress);
      forall v | 0 <= v < |s'.threads| && s'.threads[v].Appending?
        ensures Find(s'.cache, s'.threads[v].c.protocolAddress).None?
      {
        var ip := s'.threads[v].c.protocolAddress;
        FindAppend(s.cache, c, ip);
        assert !SamePending(s.threads[if u < v then u else v], s.threads[if u < v then v else u]);
      }
    }
  }

  lemma {:induction false} RunSettled(run: seq<Shared>, i: nat)
    requires Path(run) && Init(run[0]) && i < |run| && forall k :: 0 <= k < i ==> !Overlap(run[k])
    ensures Settled(run[i])
  {
    if i > 0 {
      RunSettled(run, i - 1);
      StepSettled(run[i - 1], run[i]);
    }
  }

  function CountEntries(cache: Entries, ip: uint32): nat {
    if cache == [] then 0
    else CountEntries(cache[..|cache| - 1], ip) + if cache[|cache| - 1].protocolAddress == ip then 1 else 0
  }

  function CountPending(threads: seq<Pc>, ip: uint32): nat {
    if threads == [] then 0
    else CountPending(threads[..|threads| - 1], ip) + if Pending(threads[|threads| - 1], ip) then 1 else 0
  }

  /** The entries for an address, in the list or on their way there. */
  function Weight(s: Shared, ip: uint32): nat {
    CountEntries(s.cache, ip) + CountPending(s.threads, ip)
  }

  lemma {:induction false} CountUpdate(threads: seq<Pc>, u: nat, t: Pc, ip: uint32)
    requires u < |threads|
    ensures CountPending(threads[u := t], ip) ==
            CountPending(threads, ip) - (if Pending(threads[u], ip) then 1 else 0) + if Pending(t, ip) then 1 else 0
  {
    var n := |threads| - 1;
    if u < n {
      CountUpdate(threads[..n], u, t, ip);
      assert threads[u := t][..n] == threads[..n][u := t];
    } else {
      assert threads[u := t][..n] == threads[..n];
    }
  }

  /** No step takes an entry, or one on its way, back. */
  lemma StepWeight(s: Shared, s': Shared, ip: uint32)
    requires Step(s, s')
    ensures Weight(s, ip) <= Weight(s', ip)
  {
    if u: nat, c: CacheData :| Check(s, s', u, c) {
      CountUpdate(s.threads, u, Appending(c), ip);
    } else {
      var u: nat :| Append(s, s', u);
      CountUpdate(s.threads, u, Outside, ip);
      assert s'.cache[..|s.cache|] == s.cache;
    }
  }

  lemma {:induction false} RunWeight(run: seq<Shared>, k: nat, i: nat, ip: uint32)
    requires Path(run) && k <= i < |run|
    ensures Weight(run[k], ip) <= Weight(run[i], ip)
  {
    if k < i {
      RunWeight(run, k, i - 1, ip);
      StepWeight(run[i - 1], run[i], ip);
    }
  }

  lemma {:induction false} SomePending(threads: seq<Pc>, u: nat, ip: uint32)
    requires u < |threads| && Pending(threads[u], ip)
    ensures CountPending(threads, ip) >= 1
  {
    if u < |threads| - 1 {
      SomePending(threads[..|threads| - 1], u, ip);
    }
  }

  lemma {:induction false} TwoPending(threads: seq<Pc>, u: nat, v: nat, ip: uint32)
    requires u < v < |threads| && Pending(threads[u], ip) && Pending(threads[v], ip)
    ensures CountPending(threads, ip) >= 2
  {
    if v < |threads| - 1 {
      TwoPending(threads[..|threads| - 1], u, v, ip);
    } else {
      SomePending(threads[..v], u, ip);
    }
  }

  lemma {:induction false} NonePending(threads: seq<Pc>, ip: uint32)
    requires forall u :: 0 <= u < |threads| ==> threads[u] == Outside
    ensures CountPending(threads, ip) == 0
  {
    if threads != [] {
      NonePending(threads[..|threads| - 1], ip);
    }
  }

  lemma {:induction false} UniqueCount(cache: Entries, ip: uint32)
    requires UniqueKeys(cache)
    ensures CountEntries(cache, ip) <= if Find(cache, ip).Some? then 1 else 0
  {
    if cache != [] {
      var n := |cache| - 1;
      var rest := cache[..n];
      UniqueCount(rest, ip);
      FindNone(rest, ip);
      FindAppend(rest, cache[n], ip);
      assert cache == rest + [cache[n]];
    }
  }

  /** An overlap leaves its mark for ever: once nobody is about to append, a key is there twice. */
  lemma OverlapLeavesDuplicate(run: seq<Shared>, k: nat, i: nat)
    requires Path(run) && k <= i < |run| && Overlap(run[k])
    requires forall u :: 0 <= u < |run[i].threads| ==> run[i].threads[u] == Outside
    ensures !UniqueKeys(run[i].cache)
  {
    var u, v :| 0 <= u < v < |run[k].threads| && SamePending(run[k].threads[u], run[k].threads[v]);
    var ip := run[k].threads[u].c.protocolAddress;
    TwoPending(run[k].threads, u, v, ip);
    RunWeight(run, k, i, ip);
    NonePending(run[i].threads, ip);
    if UniqueKeys(run[i].cache) {
      UniqueCount(run[i].cache, ip);
    }
  }

  /** Exactly when keys stay unique: whenever no create is under way, every address has one entry
      at most, if and only if no two creates for the same address have overlapped so far. */
  lemma KeysUniqueExactly(run: seq<Shared>, i: nat)
    requires Path(run) && Init(run[0]) && i < |run|
    requires forall u :: 0 <= u < |run[i].threads| ==> run[i].threads[u] == Outside
    ensures UniqueKeys(run[i].cache) <==> forall k :: 0 <= k <= i ==> !Overlap(run[k])
  {
    if k :| 0 <= k <= i && Overlap(run[k]) {
      OverlapLeavesDuplicate(run, k, i);
    } else {
      RunSettled(run, i);
    }
  }

  /** Creates that run one after the other, whichever threads make them, keep the keys unique
      at every moment. */
  lemma SequentialKeysUnique(run: seq<Shared>, i: nat)
    requires Path(run) && Init(run[0]) && i < |run|
    requires forall k, u, v :: 0 <= k < i && 0 <= u < v < |run[k].threads| ==>
               run[k].threads[u] == Outside || run[k].threads[v] == Outside
    ensures UniqueKeys(run[i].cache)
  {
    RunSettled(run, i);
  }

  /** Overlaps do occur. */
  lemma OverlapMayDuplicate(c: CacheData) returns (run: seq<Shared>)
    ensures Path(run) && Init(run[0]) && !UniqueKeys(run[|run| - 1].cache)
  {
    var s0 := Shared([], [Outside, Outside], []);
    var s1 := Shared([], [Appending(c), Outside], []);
    var s2 := Shared([], [Appending(c), Appending(c)], []);
    var s3 := Shared([c], [Outside, Appending(c)], [c]);
    var s4 := Shared([c, c], [Outside, Outside], [c, c]);
    assert Check(s0, s1, 0, c) && Check(s1, s2, 1, c) && Append(s2, s3, 0) && Append(s3, s4, 1);
    run := [s0, s1, s2, s3, s4];
    assert s4.cache[0] == s4.cache[1];
  }
}
