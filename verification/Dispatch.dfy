/** The protocol queues between the device and the handlers: frames are classified and queued
    by their type, and a signal drains all queues in order of type. */
module Dispatch {
  import opened Bytes
  import EtherFrame

  /** Protocol type and frame body. */
  type Item = (uint16, bytes)

  type Queues = map<uint16, seq<bytes>>

  function Tagged(k: uint16, q: seq<bytes>): seq<Item> {
    seq(|q|, i requires 0 <= i < |q| => (k, q[i]))
  }

  /** Everything that is queued, in the order in which a signal drains it. */
  function Pending(keys: seq<uint16>, queues: Queues): seq<Item>
    requires forall k :: k in keys ==> k in queues
  {
    if keys == [] then [] else Tagged(keys[0], queues[keys[0]]) + Pending(keys[1..], queues)
  }

  /** The bodies of one type, in order. */
  function OfType(items: seq<Item>, k: uint16): seq<bytes> {
    if items == [] then []
    else OfType(items[..|items| - 1], k) + (if items[|items| - 1].0 == k then [items[|items| - 1].1] else [])
  }

  predicate Ascending(keys: seq<uint16>) {
    forall i, j :: 0 <= i < j < |keys| ==> keys[i] < keys[j]
  }

  lemma {:induction false} PendingElsewhere(keys: seq<uint16>, queues: Queues, k: uint16, q: seq<bytes>)
    requires (forall x :: x in keys ==> x in queues) && k !in keys
    ensures Pending(keys, queues[k := q]) == Pending(keys, queues)
  {
    if keys != [] {
      PendingElsewhere(keys[1..], queues, k, q);
    }
  }

  lemma {:induction false} NothingPending(keys: seq<uint16>, queues: Queues)
    requires forall x :: x in keys ==> x in queues && queues[x] == []
    ensures Pending(keys, queues) == []
  {
    if keys != [] {
      NothingPending(keys[1..], queues);
    }
  }

  /** Taking the front of the first queue takes the first pending item. */
  lemma PopPending(keys: seq<uint16>, queues: Queues)
    requires Ascending(keys) && |keys| > 0 && (forall x :: x in keys ==> x in queues) && queues[keys[0]] != []
    ensures var k := keys[0];
            Pending(keys, queues) == [(k, queues[k][0])] + Pending(keys, queues[k := queues[k][1..]])
  {
    var k := keys[0];
    var q := queues[k];
    assert k !in keys[1..];
    PendingElsewhere(keys[1..], queues, k, q[1..]);
    assert Tagged(k, q) == [(k, q[0])] + Tagged(k, q[1..]);
  }

  lemma {:induction false} OfTypeAppend(a: seq<Item>, b: seq<Item>, k: uint16)
    ensures OfType(a + b, k) == OfType(a, k) + OfType(b, k)
  {
    if b == [] {
      assert a + b == a;
    } else {
      OfTypeAppend(a, b[..|b| - 1], k);
      assert (a + b)[..|a + b| - 1] == a + b[..|b| - 1];
    }
  }

  lemma {:induction false} OfTypeTagged(q: seq<bytes>, t: uint16, k: uint16)
    ensures OfType(Tagged(t, q), k) == if t == k then q else []
  {
    if q != [] {
      var p := q[..|q| - 1];
      OfTypeTagged(p, t, k);
      assert Tagged(t, q)[..|q| - 1] == Tagged(t, p);
      assert q == p + [q[|q| - 1]];
    }
  }

  /** Of every type, the pending items are its queue in order. */
  lemma {:induction false} PendingOfType(keys: seq<uint16>, queues: Queues, k: uint16)
    requires Ascending(keys) && forall x :: x in keys ==> x in queues
    ensures OfType(Pending(keys, queues), k) == if k in keys then queues[k] else []
  {
    if keys != [] {
      PendingOfType(keys[1..], queues, k);
      OfTypeTagged(queues[keys[0]], keys[0], k);
      OfTypeAppend(Tagged(keys[0], queues[keys[0]]), Pending(keys[1..], queues), k);
    }
  }

  /** The pending items come in ascending order of type. */
  lemma {:induction false} PendingAscends(keys: seq<uint16>, queues: Queues)
    requires Ascending(keys) && forall x :: x in keys ==> x in queues
    ensures forall i :: 0 <= i < |Pending(keys, queues)| ==> Pending(keys, queues)[i].0 in keys
    ensures forall i, j :: 0 <= i < j < |Pending(keys, queues)| ==>
              Pending(keys, queues)[i].0 <= Pending(keys, queues)[j].0
  {
    if keys != [] {
      var first, rest := Tagged(keys[0], queues[keys[0]]), Pending(keys[1..], queues);
      PendingAscends(keys[1..], queues);
      assert Pending(keys, queues) == first + rest;
      assert forall i :: 0 <= i < |first| ==> first[i].0 == keys[0];
      assert forall k :: k in keys[1..] ==> keys[0] <= k;
    }
  }

  /** What a drain handles, up to its end or to the first handler that throws. */
  predicate Drained(items: seq<Item>, throws: Item -> bool, ok: bool) {
    if ok then forall j :: 0 <= j < |items| ==> !throws(items[j])
    else |items| > 0 && throws(items[|items| - 1]) && forall j :: 0 <= j < |items| - 1 ==> !throws(items[j])
  }

  /** What that means for a drain of `items` that leaves `left`: it goes through if and only if
      no handler throws, and else ends with the first item whose handler does. */
  lemma DrainedExactly(items: seq<Item>, taken: seq<Item>, left: seq<Item>, throws: Item -> bool, ok: bool)
    requires taken + left == items && Drained(taken, throws, ok) && (ok ==> left == [])
    ensures ok <==> forall j :: 0 <= j < |items| ==> !throws(items[j])
    ensures ok ==> taken == items
    ensures !ok ==> 0 < |taken| <= |items| && taken == items[..|taken|] && throws(items[|taken| - 1])
                    && forall j :: 0 <= j < |taken| - 1 ==> !throws(items[j])
  {
    assert forall j :: 0 <= j < |taken| ==> taken[j] == items[j];
  }

  lemma DrainedAppend(a: seq<Item>, b: seq<Item>, throws: Item -> bool, ok: bool)
    requires Drained(a, throws, true) && Drained(b, throws, ok)
    ensures Drained(a + b, throws, ok)
  {
  }

  class Dispatcher {
    /** The registered types in the order of the queue map. */
    const keys: seq<uint16>
    var queues: Queues
    /** The items given to a handler so far. */
    var handled: seq<Item>

    ghost predicate Valid()
      reads this
    {
      Ascending(keys) && forall k :: k in keys <==> k in queues
    }

    constructor (keys: seq<uint16>)
      requires Ascending(keys)
      ensures Valid() && this.keys == keys && handled == [] && forall k :: k in queues ==> queues[k] == []
    {
      this.keys := keys;
      queues := map k | k in keys :: [];
      handled := [];
    }

    ghost function All(): seq<Item>
      requires Valid()
      reads this
    {
      Pending(keys, queues)
    }

    /** A frame read from the device is queued under its type, or dropped if nobody handles that type. */
    method Arrive(frame: bytes)
      requires Valid() && EtherFrame.HEADER_SIZE <= |frame|
      modifies this
      ensures Valid() && handled == old(handled)
      ensures var read := if |frame| < 1514 then frame else frame[..1514];
              var t := ReadUint16(read, 12);
              queues == if t !in old(queues) then old(queues)
                        else old(queues)[t := old(queues)[t] + [read[14..]]]
    {
      var read := if |frame| < EtherFrame.FRAME_MAX_SIZE then frame else frame[..EtherFrame.FRAME_MAX_SIZE];
      var t := ReadUint16(read, EtherFrame.TYPE_OFFSET);
      if t !in queues {
        return;
      }
      queues := queues[t := queues[t] + [EtherFrame.Body(read)]];
    }

    ghost predicate EmptyBefore(i: nat)
      requires Valid() && i <= |keys|
      reads this
    {
      forall j :: 0 <= j < i ==> queues[keys[j]] == []
    }

    /** Pops the front of queue i and hands it to the handler of its type. */
    method TakeFront(i: nat) returns (item: Item)
      requires Valid() && i < |keys| && EmptyBefore(i) && queues[keys[i]] != []
      modifies this
      ensures Valid() && EmptyBefore(i) && handled == old(handled) + [item]
      ensures [item] + Pending(keys[i..], queues) == Pending(keys[i..], old(queues))
      ensures |queues[keys[i]]| == |old(queues)[keys[i]]| - 1
    {
      item := (keys[i], queues[keys[i]][0]);
      PopPending(keys[i..], queues);
      queues := queues[keys[i] := queues[keys[i]][1..]];
      handled := handled + [item];
    }

    /** The inner loop: the queue of type keys[i]. */
    method DrainQueue(i: nat, throws: Item -> bool) returns (ok: bool, ghost done: seq<Item>)
      requires Valid() && i < |keys| && EmptyBefore(i)
      modifies this
      ensures Valid() && EmptyBefore(i) && handled == old(handled) + done
      ensures done + Pending(keys[i..], queues) == Pending(keys[i..], old(queues))
      ensures Drained(done, throws, ok)
      ensures ok ==> queues[keys[i]] == []
    {
      done := [];
      while queues[keys[i]] != []
        invariant Valid() && EmptyBefore(i) && handled == old(handled) + done
        invariant done + Pending(keys[i..], queues) == Pending(keys[i..], old(queues))
        invariant Drained(done, throws, true)
        decreases |queues[keys[i]]|
      {
        var item := TakeFront(i);
        Regroup(done, [item], Pending(keys[i..], queues));
        Regroup(old(handled), done, [item]);
        DrainedAppend(done, [item], throws, !throws(item));
        done := done + [item];
        if throws(item) {
          return false, done;
        }
      }
      ok := true;
    }

    /** Drains the queues; a handler that throws ends the drain with its item taken.
        What is handled now followed by what is left is exactly what was pending. */
    method HandleProtocolSignal(throws: Item -> bool) returns (ok: bool, ghost done: seq<Item>)
      requires Valid()
      modifies this
      ensures Valid() && handled == old(handled) + done && done + All() == old(All())
      ensures Drained(done, throws, ok)
      ensures ok ==> All() == [] && EmptyBefore(|keys|)
    {
      done := [];
      ok := true;
      var i := 0;
      assert keys[0..] == keys;
      while i < |keys|
        invariant 0 <= i <= |keys| && Valid() && EmptyBefore(i) && handled == old(handled) + done
        invariant done + Pending(keys[i..], queues) == old(All())
        invariant Drained(done, throws, true)
      {
        ghost var more;
        ok, more := DrainQueue(i, throws);
        DrainedAppend(done, more, throws, ok);
        Regroup(done, more, Pending(keys[i..], queues));
        Regroup(old(handled), done, more);
        done := done + more;
        if !ok {
          AllFrom(i);
          return;
        }
        SkipEmpty(keys, queues, i);
        i := i + 1;
      }
      AllFrom(i);
    }

    lemma AllFrom(i: nat)
      requires Valid() && i <= |keys| && EmptyBefore(i)
      ensures All() == Pending(keys[i..], queues)
    {
      EarlierEmpty(keys, queues, i);
    }
  }

  lemma Regroup(a: seq<Item>, b: seq<Item>, c: seq<Item>)
    ensures a + b + c == a + (b + c)
  {
  }

  lemma SkipEmpty(keys: seq<uint16>, queues: Queues, i: nat)
    requires i < |keys| && (forall x :: x in keys ==> x in queues) && queues[keys[i]] == []
    ensures Pending(keys[i..], queues) == Pending(keys[i + 1..], queues)
  {
    assert keys[i..][1..] == keys[i + 1..];
  }

  lemma {:induction false} EarlierEmpty(keys: seq<uint16>, queues: Queues, i: nat)
    requires i <= |keys| && forall x :: x in keys ==> x in queues
    requires forall j :: 0 <= j < i ==> queues[keys[j]] == []
    ensures Pending(keys, queues) == Pending(keys[i..], queues)
  {
    if i > 0 {
      EarlierEmpty(keys[1..], queues, i - 1);
      assert keys[1..][i - 1..] == keys[i..];
    }
  }

  /** A drain takes from the front of every queue and nothing else: per type, what is handled
      followed by what is left is what was queued. */
  lemma DrainIsFifo(keys: seq<uint16>, before: Queues, after: Queues, taken: seq<Item>, k: uint16)
    requires Ascending(keys) && k in keys && (forall x :: x in keys ==> x in before && x in after)
    requires taken + Pending(keys, after) == Pending(keys, before)
    ensures OfType(taken, k) + after[k] == before[k]
  {
    OfTypeAppend(taken, Pending(keys, after), k);
    PendingOfType(keys, before, k);
    PendingOfType(keys, after, k);
  }
}
