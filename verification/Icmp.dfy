/** ICMP echo (RFC 792): the reply is the request with another type and a checksum of its own. */
module Icmp {
  import opened Bytes
  import opened IpUtils

  const TYPE_ECHO_REPLY: byte := 0
  const TYPE_ECHO: byte := 8
  const ECHO_HEADER := 8
  const TYPE_OFFSET := 0
  const CHECKSUM := 2

  /** The request with its type changed. */
  function Typed(request: bytes): (r: bytes)
    requires |request| >= ECHO_HEADER
    ensures |r| == |request|
  {
    Put(request, [TYPE_ECHO_REPLY], TYPE_OFFSET)
  }

  /** The request as the reply starts out: its checksum field cleared as well. */
  function Cleared(request: bytes): (r: bytes)
    requires |request| >= ECHO_HEADER
    ensures |r| == |request|
  {
    Put(Typed(request), U16(0), CHECKSUM)
  }

  function Reply(request: bytes): (r: bytes)
    requires |request| >= ECHO_HEADER && |request| % 2 == 0
  {
    Put(Cleared(request), U16(0xFFFF - Fold(WordSum(Cleared(request)))), CHECKSUM)
  }

  method StoreChecksum(p: BinaryPayload)
    requires ECHO_HEADER <= |p.data| <= 0x1_0000 && |p.data| % 2 == 0
    modifies p
    ensures p.data == Put(old(p.data), U16(0xFFFF - Fold(WordSum(old(p.data)))), CHECKSUM)
  {
    var checksum := FoldedSum(p.data);
    p.WriteUint16(0xFFFF - checksum, CHECKSUM);
  }

  method BuildReply(request: bytes) returns (reply: BinaryPayload)
    requires ECHO_HEADER <= |request| <= 0x1_0000 && |request| % 2 == 0
    ensures fresh(reply) && reply.data == Reply(request)
  {
    reply := new BinaryPayload(request);
    reply.Write(TYPE_ECHO_REPLY, TYPE_OFFSET);
    reply.WriteUint16(0, CHECKSUM);
    assert reply.data == Cleared(request);
    StoreChecksum(reply);
  }

  /** The reply differs from the request in its type and checksum only. */
  lemma ReplyBytes(request: bytes)
    requires |request| >= ECHO_HEADER && |request| % 2 == 0
    ensures var reply := Reply(request);
            && reply[0] == 0 && reply[1] == request[1] && reply[4..] == request[4..]
            && ReadUint16(reply, 2) == 0xFFFF - Fold(WordSum(Cleared(request)))
            && Cleared(request) == [0, request[1], 0, 0] + request[4..]
  {
    var c := 0xFFFF - Fold(WordSum(Cleared(request)));
    assert At(Reply(request), CHECKSUM) == c / 0x100 && At(Reply(request), CHECKSUM + 1) == c % 0x100;
  }

  /** It is accepted exactly when its own zero-field sum has no second carry. */
  lemma ReplyAccepted(request: bytes)
    requires ECHO_HEADER <= |request| <= 0x1_0000 && |request| % 2 == 0
    ensures Verifies(Reply(request)) <==> NoSecondCarry(WordSum(Cleared(request)))
  {
    var z := Cleared(request);
    WordSumBound(z);
    GeneratedAccepted(WordSum(z));
    WordSumPut(z, 0xFFFF - Fold(WordSum(z)), CHECKSUM);
    assert At(z, CHECKSUM) == 0 && At(z, CHECKSUM + 1) == 0;
  }

  /** The words of ten bytes. */
  lemma SumOfFive(a: uint16, b: uint16, c: uint16, d: uint16, e: uint16)
    ensures WordSum(U16(a) + U16(b) + U16(c) + U16(d) + U16(e)) == a + b + c + d + e
  {
    OneWord(a);
    AppendWord(U16(a), b);
    AppendWord(U16(a) + U16(b), c);
    AppendWord(U16(a) + U16(b) + U16(c), d);
    AppendWord(U16(a) + U16(b) + U16(c) + U16(d), e);
  }

  lemma VerdictsOfSum(request: bytes, sum: nat, field: uint16)
    requires ECHO_HEADER <= |request| <= 0x1_0000 && |request| % 2 == 0 && request[TYPE_OFFSET] == TYPE_ECHO
    requires WordSum(request) == sum && ReadUint16(request, CHECKSUM) == field
    ensures Verifies(request) <==> Fold(sum) == 0xFFFF
    ensures sum >= 0x0800 + field && (Verifies(Reply(request)) <==> NoSecondCarry(sum - 0x0800 - field))
  {
    ClearedSum(request);
    ReplyAccepted(request);
  }

  lemma SumsOfRefused()
    ensures Fold(0x2_FFFD) == 0xFFFF && !NoSecondCarry(0x2_FFFD - 0x0800 - 0xF7FE)
  {
  }

  /** An accepted echo request to which the reply is refused, though nothing alters it on the way. */
  lemma SomeReplyIsRefused() returns (request: bytes)
    ensures request == [TYPE_ECHO, 0, 0xF7, 0xFE, 0xFF, 0xFF, 0xFF, 0xFF, 0, 1]
    ensures Verifies(request) && !Verifies(Reply(request))
  {
    request := U16(0x0800) + U16(0xF7FE) + U16(0xFFFF) + U16(0xFFFF) + U16(1);
    SumOfFive(0x0800, 0xF7FE, 0xFFFF, 0xFFFF, 1);
    VerdictsOfSum(request, 0x2_FFFD, 0xF7FE);
    SumsOfRefused();
  }

  /** The reply to an accepted request is an incremental update in the sense of RFC 1624:
      when it is accepted too, its checksum is the request's, moved up by 0x0800. */
  lemma ReplyIsIncrementalUpdate(request: bytes)
    requires ECHO_HEADER <= |request| <= 0x1_0000 && |request| % 2 == 0
    requires request[TYPE_OFFSET] == TYPE_ECHO && Verifies(request) && Verifies(Reply(request))
    ensures ReadUint16(Reply(request), CHECKSUM) % 0xFFFF == (ReadUint16(request, CHECKSUM) + 0x0800) % 0xFFFF
  {
    ReplyBytes(request);
    ReplyAccepted(request);
    ClearedSum(request);
    SingleFoldIsRfc1071(request);
    Congruent(WordSum(request), WordSum(Cleared(request)), ReadUint16(request, CHECKSUM),
              ReadUint16(Reply(request), CHECKSUM));
  }

  /** Changing the type is changing the first word. */
  lemma TypedSum(request: bytes)
    requires |request| >= ECHO_HEADER && |request| % 2 == 0 && request[TYPE_OFFSET] == TYPE_ECHO
    ensures WordSum(Typed(request)) == WordSum(request) - 0x0800
  {
    var w: uint16 := At(request, 1);
    assert U16(w) == [TYPE_ECHO_REPLY, request[1]];
    assert Typed(request) == Put(request, U16(w), TYPE_OFFSET);
    WordSumPut(request, w, TYPE_OFFSET);
    assert ReadUint16(request, TYPE_OFFSET) == 0x0800 + w;
  }

  lemma TypedChecksum(request: bytes)
    requires |request| >= ECHO_HEADER
    ensures ReadUint16(Typed(request), CHECKSUM) == ReadUint16(request, CHECKSUM)
  {
    assert At(Typed(request), CHECKSUM) == At(request, CHECKSUM);
    assert At(Typed(request), CHECKSUM + 1) == At(request, CHECKSUM + 1);
  }

  lemma ClearedSum(request: bytes)
    requires |request| >= ECHO_HEADER && |request| % 2 == 0 && request[TYPE_OFFSET] == TYPE_ECHO
    ensures WordSum(Cleared(request)) == WordSum(request) - 0x0800 - ReadUint16(request, CHECKSUM)
  {
    TypedSum(request);
    TypedChecksum(request);
    WordSumPut(Typed(request), 0, CHECKSUM);
  }

  lemma Congruent(sum: nat, zeroSum: nat, field: uint16, c: uint16)
    requires sum % 0xFFFF == 0 && zeroSum == sum - 0x0800 - field && NoSecondCarry(zeroSum)
    requires c == 0xFFFF - Fold(zeroSum)
    ensures c % 0xFFFF == (field + 0x0800) % 0xFFFF
  {
    var h, l := zeroSum / 0x1_0000, zeroSum % 0x1_0000;
    FoldParts(h, l);
    var k := sum / 0xFFFF;
    assert c == 0xFFFF - h - l;
    assert c == 0xFFFF * (1 + h - k) + (field + 0x0800);
  }
}
