/** IPv4 packets (RFC 791): the packed first byte, the header checksum and the payload. */
module Ipv4Data {
  import opened Bytes
  import opened IpUtils

  const IP_VERSION_IPV4 := 4
  const BASE_HEADER := 20
  const MAX_PAYLOAD := 0xFFFF - BASE_HEADER

  const TYPE_OF_SERVICE := 1
  const TOTAL_LENGTH := 2
  const IDENTIFICATION := 4
  const FLAGS_AND_FRAGMENT_OFFSET := 6
  const TIME_TO_LIVE := 8
  const PROTOCOL := 9
  const CHECKSUM := 10
  const SRC := 12
  const DST := 16

  // ---------------------------------------------------------------- version and header length

  /** `(value & 0xF0) >> 4` and `value & 0x0F` of the first byte. */
  function Version(data: bytes): (r: nat)
    requires |data| > 0
    ensures r < 0x10
  {
    At(data, 0) / 0x10
  }

  function HeaderLength(data: bytes): (r: nat)
    requires |data| > 0
    ensures r < 0x10
  {
    At(data, 0) % 0x10
  }

  function HeaderBytes(data: bytes): nat
    requires |data| > 0
  {
    HeaderLength(data) * 4
  }

  lemma Nibbles(high: nat, low: nat)
    requires high < 0x10 && low < 0x10
    ensures 0 <= high * 0x10 + low < 0x100
    ensures (high * 0x10 + low) / 0x10 == high && (high * 0x10 + low) % 0x10 == low
  {
  }

  /** A first byte put together from two nibbles. */
  function Joined(high: nat, low: nat): (r: byte)
    requires high < 0x10 && low < 0x10
    ensures r as int / 0x10 == high && r as int % 0x10 == low
  {
    NibbleShiftOr(high, low);
    Nibbles(high, low);
    BitOr(high * 0x10, low)
  }

  method SetFirst(p: BinaryPayload, high: nat, low: nat)
    requires |p.data| > 0 && high < 0x10 && low < 0x10
    modifies p
    ensures |p.data| == old(|p.data|) && p.data[1..] == old(p.data)[1..]
    ensures Version(p.data) == high && HeaderLength(p.data) == low
  {
    p.Write(Joined(high, low), 0);
  }

  /** `value << 4`, cut to a byte, puts the low nibble of the value into the high one. */
  method SetVersion(p: BinaryPayload, value: byte)
    requires |p.data| > 0
    modifies p
    ensures |p.data| == old(|p.data|) && p.data[1..] == old(p.data)[1..]
    ensures Version(p.data) == value % 0x10 && HeaderLength(p.data) == old(HeaderLength(p.data))
  {
    SetFirst(p, (value % 0x10) as int, HeaderLength(p.data));
  }

  /** Storing a header length keeps the version. */
  method SetHeaderLength(p: BinaryPayload, value: byte)
    requires |p.data| > 0
    modifies p
    ensures |p.data| == old(|p.data|) && p.data[1..] == old(p.data)[1..]
    ensures HeaderLength(p.data) == value % 0x10 && Version(p.data) == old(Version(p.data))
  {
    SetFirst(p, Version(p.data), (value % 0x10) as int);
  }

  method NewHeader() returns (p: BinaryPayload)
    ensures fresh(p) && p.data == [0x45] + Zeros(BASE_HEADER - 1)
  {
    p := new BinaryPayload(Zeros(BASE_HEADER));
    SetVersion(p, IP_VERSION_IPV4);
    SetHeaderLength(p, 5);
    assert p.data[1..] == Zeros(BASE_HEADER - 1);
    assert At(p.data, 0) == 0x45;
    assert p.data == [p.data[0]] + p.data[1..];
  }

  // ---------------------------------------------------------------- header checksum

  /** A header of 5 to 15 words that lies inside the buffer. */
  predicate HasHeader(data: bytes) {
    |data| > 0 && HeaderLength(data) >= 5 && HeaderBytes(data) <= |data|
  }

  /** The words that the header length names, as far as the buffer goes, can be read. */
  predicate HeaderReadable(data: bytes) {
    |data| > 0 && Readable(data, 0, HeaderBytes(data))
  }

  predicate HeaderVerifies(data: bytes)
    requires HeaderReadable(data)
  {
    Verifies(Range(data, 0, HeaderBytes(data)))
  }

  lemma WholeHeader(data: bytes)
    requires HasHeader(data)
    ensures HeaderReadable(data) && Range(data, 0, HeaderBytes(data)) == data[..HeaderBytes(data)]
  {
    FrontRange(data, HeaderBytes(data));
  }

  /** The header as far as the buffer goes; its first byte's low digit counts words of four bytes. */
  function HeaderPart(data: bytes): bytes
    requires |data| > 0
  {
    var n := 4 * (At(data, 0) % 16);
    if n <= |data| then data[..n] else data
  }

  /** The check covers exactly those bytes, for all sixteen lengths. */
  lemma VerifiesExactly(data: bytes)
    requires |data| > 0
    ensures HeaderReadable(data) <==> |HeaderPart(data)| % 2 == 0
    ensures HeaderReadable(data) ==>
              (HeaderVerifies(data) <==> EndAroundFold(WordSum(HeaderPart(data))) == 0xFFFF)
  {
    var n := HeaderBytes(data);
    RangeExactly(data, 0, n);
    if HeaderReadable(data) {
      assert Range(data, 0, n) == HeaderPart(data);
      SingleFoldIsRfc1071(HeaderPart(data));
    }
  }

  method VerifyHeader(p: BinaryPayload) returns (ok: bool)
    requires HeaderReadable(p.data)
    ensures ok == HeaderVerifies(p.data)
  {
    NoOverflow(Range(p.data, 0, HeaderBytes(p.data)));
    var ret := CalculateChecksum(p.data, 0, HeaderBytes(p.data));
    ok := ret == 0xFFFF;
  }

  /** The sum of the header words when the checksum field holds zero. */
  function ZeroFieldSum(data: bytes): nat
    requires HasHeader(data)
  {
    WordSum(Put(data, U16(0), CHECKSUM)[..HeaderBytes(data)])
  }

  function WithCheckSum(data: bytes): bytes
    requires HasHeader(data)
  {
    Put(data, U16(0xFFFF - Fold(ZeroFieldSum(data))), CHECKSUM)
  }

  method SetCheckSum(p: BinaryPayload)
    requires HasHeader(p.data)
    modifies p
    ensures p.data == WithCheckSum(old(p.data))
  {
    var headerLen := HeaderBytes(p.data);
    p.WriteUint16(0, CHECKSUM);
    var sum := FoldedFront(p.data, headerLen);
    p.WriteUint16(0xFFFF - sum, CHECKSUM);
  }

  /** A header is accepted after its checksum was set if and only if its words, with a
      zero checksum field, sum up without a second carry. */
  lemma HeaderCheckExact(data: bytes)
    requires HasHeader(data)
    ensures HasHeader(WithCheckSum(data)) && HeaderReadable(WithCheckSum(data))
    ensures HeaderVerifies(WithCheckSum(data)) <==> NoSecondCarry(ZeroFieldSum(data))
  {
    assert At(WithCheckSum(data), 0) == At(data, 0);
    WholeHeader(WithCheckSum(data));
    SealedSum(data);
    WordSumBound(Put(data, U16(0), CHECKSUM)[..HeaderBytes(data)]);
    GeneratedAccepted(ZeroFieldSum(data));
  }

  lemma SealedSum(data: bytes)
    requires HasHeader(data)
    ensures WordSum(WithCheckSum(data)[..HeaderBytes(data)]) == ZeroFieldSum(data) + (0xFFFF - Fold(ZeroFieldSum(data)))
  {
    var n, z, c := HeaderBytes(data), Put(data, U16(0), CHECKSUM), 0xFFFF - Fold(ZeroFieldSum(data));
    assert WithCheckSum(data)[..n] == Put(z[..n], U16(c), CHECKSUM);
    assert At(z[..n], CHECKSUM) == 0 && At(z[..n], CHECKSUM + 1) == 0;
    WordSumPut(z[..n], c, CHECKSUM);
  }

  // ---------------------------------------------------------------- payload

  predicate HasPayload(data: bytes) {
    |data| >= BASE_HEADER && HeaderBytes(data) <= ReadUint16(data, TOTAL_LENGTH) <= |data|
  }

  /** The bytes between the header and the total length: link padding stays behind. */
  function Payload(data: bytes): bytes
    requires HasPayload(data)
  {
    data[HeaderBytes(data)..ReadUint16(data, TOTAL_LENGTH)]
  }

  method SetPayload(p: BinaryPayload, d: bytes)
    requires HasHeader(p.data) && HeaderBytes(p.data) + |d| <= 0xFFFF
    modifies p
    ensures p.data == Put(Resize(Put(old(p.data), U16(old(HeaderBytes(p.data)) + |d|), TOTAL_LENGTH),
                                 old(HeaderBytes(p.data)) + |d|),
                          d, old(HeaderBytes(p.data)))
  {
    var l := HeaderBytes(p.data) + |d|;
    p.WriteUint16(l, TOTAL_LENGTH);
    p.ResizeTo(l);
    p.WriteVector(d, HeaderBytes(p.data));
  }

  // ---------------------------------------------------------------- the packet that is sent

  /** The header as RFC 791 draws it, with the constants this stack sends. */
  function Header(total: uint16, id: uint16, protocol: byte, checksum: uint16, src: uint32, dst: uint32): (r: bytes)
    ensures |r| == BASE_HEADER
  {
    [0x45, 0] + U16(total) + U16(id) + U16(0) + [0xFF, protocol] + U16(checksum) + U32(src) + U32(dst)
  }

  /** Where its fields stand. */
  lemma HeaderLayout(total: uint16, id: uint16, protocol: byte, c: uint16, src: uint32, dst: uint32)
    ensures var h := Header(total, id, protocol, c, src, dst);
            && h[..2] == [0x45, 0] && h[2..4] == U16(total) && h[4..6] == U16(id) && h[6..8] == [0, 0]
            && h[8] == 0xFF && h[9] == protocol && h[10..12] == U16(c) && h[12..16] == U32(src) && h[16..20] == U32(dst)
  {
  }

  /** Whether the receiver will accept the header of such a packet. */
  predicate HeaderDeliverable(total: uint16, id: uint16, protocol: byte, src: uint32, dst: uint32) {
    NoSecondCarry(WordSum(Header(total, id, protocol, 0, src, dst)))
  }

  function HeaderChecksum(total: uint16, id: uint16, protocol: byte, src: uint32, dst: uint32): uint16 {
    0xFFFF - Fold(WordSum(Header(total, id, protocol, 0, src, dst)))
  }

  function Packet(id: uint16, protocol: byte, src: uint32, dst: uint32, d: bytes): (r: bytes)
    requires |d| <= MAX_PAYLOAD
    ensures |r| == BASE_HEADER + |d|
  {
    var total := BASE_HEADER + |d|;
    Header(total, id, protocol, HeaderChecksum(total, id, protocol, src, dst), src, dst) + d
  }

  lemma HeaderFields(total: uint16, id: uint16, protocol: byte, c: uint16, src: uint32, dst: uint32, rest: bytes)
    requires BASE_HEADER <= total <= BASE_HEADER + |rest|
    ensures var p := Header(total, id, protocol, c, src, dst) + rest;
            && HasHeader(p) && Version(p) == IP_VERSION_IPV4 && HeaderBytes(p) == BASE_HEADER
            && At(p, PROTOCOL) == protocol && ReadUint16(p, TOTAL_LENGTH) == total
            && ReadUint16(p, CHECKSUM) == c
            && HasPayload(p) && Payload(p) == rest[..total - BASE_HEADER]
  {
    var p := Header(total, id, protocol, c, src, dst) + rest;
    assert At(p, 0) == 0x45;
    assert At(p, 2) == total / 0x100 && At(p, 3) == total % 0x100;
    assert At(p, 10) == c / 0x100 && At(p, 11) == c % 0x100;
    assert p[BASE_HEADER..total] == rest[..total - BASE_HEADER];
  }

  lemma HeaderAddresses(total: uint16, id: uint16, protocol: byte, c: uint16, src: uint32, dst: uint32, rest: bytes)
    ensures var p := Header(total, id, protocol, c, src, dst) + rest;
            ReadUint32(p, SRC) == src && ReadUint32(p, DST) == dst
  {
    var p := Header(total, id, protocol, c, src, dst) + rest;
    var front := [0x45, 0] + U16(total) + U16(id) + U16(0) + [0xFF, protocol] + U16(c);
    ReadBack32(front, src, U32(dst) + rest);
    assert p == front + U32(src) + (U32(dst) + rest);
    ReadBack32(front + U32(src), dst, rest);
    assert p == (front + U32(src)) + U32(dst) + rest;
  }

  /** The packet, whatever padding follows it, is accepted exactly when its header is
      deliverable, and then yields the data it was built from. */
  lemma PacketRoundTrip(id: uint16, protocol: byte, src: uint32, dst: uint32, d: bytes, padding: bytes)
    requires |d| <= MAX_PAYLOAD
    ensures var p := Packet(id, protocol, src, dst, d) + padding;
            && HasPayload(p) && Payload(p) == d
            && At(p, PROTOCOL) == protocol && ReadUint32(p, SRC) == src && ReadUint32(p, DST) == dst
            && HeaderReadable(p)
            && (HeaderVerifies(p) <==> HeaderDeliverable(BASE_HEADER + |d|, id, protocol, src, dst))
  {
    var total := BASE_HEADER + |d|;
    var c := HeaderChecksum(total, id, protocol, src, dst);
    var p := Packet(id, protocol, src, dst, d) + padding;
    assert p == Header(total, id, protocol, c, src, dst) + (d + padding);
    HeaderFields(total, id, protocol, c, src, dst, d + padding);
    assert (d + padding)[..|d|] == d;
    HeaderAddresses(total, id, protocol, c, src, dst, d + padding);
    WholeHeader(p);
    assert p[..BASE_HEADER] == Header(total, id, protocol, c, src, dst);
    HeaderAccepted(total, id, protocol, src, dst);
  }

  lemma HeaderAccepted(total: uint16, id: uint16, protocol: byte, src: uint32, dst: uint32)
    ensures Verifies(Header(total, id, protocol, HeaderChecksum(total, id, protocol, src, dst), src, dst))
            <==> HeaderDeliverable(total, id, protocol, src, dst)
  {
    ChecksumField(total, id, protocol, HeaderChecksum(total, id, protocol, src, dst), src, dst);
    WordSumBound(Header(total, id, protocol, 0, src, dst));
    GeneratedAccepted(WordSum(Header(total, id, protocol, 0, src, dst)));
  }

  lemma ChecksumField(total: uint16, id: uint16, protocol: byte, c: uint16, src: uint32, dst: uint32)
    ensures Put(Header(total, id, protocol, 0, src, dst), U16(c), CHECKSUM) == Header(total, id, protocol, c, src, dst)
    ensures WordSum(Header(total, id, protocol, c, src, dst)) == WordSum(Header(total, id, protocol, 0, src, dst)) + c
  {
    var z := Header(total, id, protocol, 0, src, dst);
    assert At(z, CHECKSUM) == 0 && At(z, CHECKSUM + 1) == 0;
    WordSumPut(z, c, CHECKSUM);
    assert Put(z, U16(c), CHECKSUM) == Header(total, id, protocol, c, src, dst);
  }

  /** The sum that decides, as a sum of the fields. */
  function FieldSum(total: uint16, id: uint16, protocol: byte, src: uint32, dst: uint32): nat {
    0x4500 + total + id + 0xFF00 + protocol + src / 0x1_0000 + src % 0x1_0000 + dst / 0x1_0000 + dst % 0x1_0000
  }

  lemma HeaderSum(total: uint16, id: uint16, protocol: byte, src: uint32, dst: uint32)
    ensures WordSum(Header(total, id, protocol, 0, src, dst)) == FieldSum(total, id, protocol, src, dst)
  {
    var ttl: uint16 := 0xFF00 + protocol as int;
    assert [0x45, 0] == U16(0x4500) && [0xFF, protocol] == U16(ttl);
    OneWord(0x4500);
    AppendWord([0x45, 0], total);
    AppendWord([0x45, 0] + U16(total), id);
    AppendWord([0x45, 0] + U16(total) + U16(id), 0);
    AppendWord([0x45, 0] + U16(total) + U16(id) + U16(0), ttl);
    var front := [0x45, 0] + U16(total) + U16(id) + U16(0) + [0xFF, protocol];
    AppendWord(front, 0);
    AppendTwo(front + U16(0), src);
    AppendTwo(front + U16(0) + U32(src), dst);
  }

  /** The receiver's verdict on a packet's header, read off the inputs. */
  lemma HeaderVerdict(id: uint16, protocol: byte, src: uint32, dst: uint32, d: bytes)
    requires |d| <= MAX_PAYLOAD
    ensures var p := Packet(id, protocol, src, dst, d);
            && HeaderReadable(p)
            && (HeaderVerifies(p) <==> NoSecondCarry(FieldSum(BASE_HEADER + |d|, id, protocol, src, dst)))
  {
    HeaderSum(BASE_HEADER + |d|, id, protocol, src, dst);
    PacketRoundTrip(id, protocol, src, dst, d, []);
    assert Packet(id, protocol, src, dst, d) + [] == Packet(id, protocol, src, dst, d);
  }

  lemma SumWithTwoCarries()
    ensures FieldSum(28, 128, 0x11, 0xC000_0202, 0xC000_394F) == 0x2_FFFE
  {
  }

  /** The receiver does refuse some headers that were not altered on the way: that of the very
      first packet of a fresh stack, carrying an empty datagram from 192.0.2.2 to 192.0.57.79. */
  lemma SomeHeaderIsRefused(d: bytes)
    requires |d| == 8
    ensures var p := Packet(128, 0x11, 0xC000_0202, 0xC000_394F, d); HeaderReadable(p) && !HeaderVerifies(p)
  {
    SumWithTwoCarries();
    HeaderVerdict(128, 0x11, 0xC000_0202, 0xC000_394F, d);
  }

  /** The checksum of the header that is sent is that of RFC 791, the complement of the fully
      folded sum of its fields, if and only if that sum has no second carry. */
  lemma ChecksumIsRfc791(total: uint16, id: uint16, protocol: byte, src: uint32, dst: uint32)
    ensures var sum, c := FieldSum(total, id, protocol, src, dst), HeaderChecksum(total, id, protocol, src, dst);
            && c == 0xFFFF - (sum + sum / 0x1_0000) % 0x1_0000
            && (c == 0xFFFF - EndAroundFold(sum) <==> NoSecondCarry(sum))
  {
    HeaderSum(total, id, protocol, src, dst);
    GeneratedIsRfc1071(FieldSum(total, id, protocol, src, dst));
  }

  /** The stores at field offsets build the header left to right. */
  lemma HeaderWrites(total: uint16, id: uint16, protocol: byte, src: uint32, dst: uint32)
    ensures var h0 := Put([0x45] + Zeros(BASE_HEADER - 1), [0], TYPE_OF_SERVICE);
            var h1 := Put(Put(h0, U16(total), TOTAL_LENGTH), U16(id), IDENTIFICATION);
            var h2 := Put(Put(h1, U16(0), FLAGS_AND_FRAGMENT_OFFSET), [0xFF], TIME_TO_LIVE);
            var h3 := Put(Put(h2, [protocol], PROTOCOL), U16(0), CHECKSUM);
            Put(Put(h3, U32(src), SRC), U32(dst), DST) == Header(total, id, protocol, 0, src, dst)
  {
  }

  lemma HeaderStart(total: uint16, id: uint16, protocol: byte, c: uint16, src: uint32, dst: uint32)
    ensures var h := Header(total, id, protocol, c, src, dst); HasHeader(h) && HeaderBytes(h) == BASE_HEADER
  {
    assert At(Header(total, id, protocol, c, src, dst), 0) == 0x45;
  }

  /** Setting the checksum of the header fills in that one field. */
  lemma HeaderSealed(total: uint16, id: uint16, protocol: byte, src: uint32, dst: uint32)
    ensures var z := Header(total, id, protocol, 0, src, dst);
            HasHeader(z) && WithCheckSum(z) ==
              Header(total, id, protocol, HeaderChecksum(total, id, protocol, src, dst), src, dst)
  {
    var z := Header(total, id, protocol, 0, src, dst);
    HeaderStart(total, id, protocol, 0, src, dst);
    ChecksumField(total, id, protocol, 0, src, dst);
    ChecksumField(total, id, protocol, HeaderChecksum(total, id, protocol, src, dst), src, dst);
    assert z[..BASE_HEADER] == z;
  }

  /** Setting the payload stores the length that is already there, so every byte of the header,
      and with them the verdict on its checksum, stays as it was. */
  lemma PayloadKeepsHeader(total: uint16, id: uint16, protocol: byte, c: uint16, src: uint32, dst: uint32, d: bytes)
    requires total == BASE_HEADER + |d|
    ensures var h := Header(total, id, protocol, c, src, dst);
            && HasHeader(h) && HeaderBytes(h) == BASE_HEADER
            && Put(Resize(Put(h, U16(total), TOTAL_LENGTH), total), d, BASE_HEADER) == h + d
  {
    var h := Header(total, id, protocol, c, src, dst);
    HeaderStart(total, id, protocol, c, src, dst);
    assert h[TOTAL_LENGTH] == total / 0x100 && h[TOTAL_LENGTH + 1] == total % 0x100;
    assert Put(h, U16(total), TOTAL_LENGTH) == h;
  }

  method FillHeader(p: BinaryPayload, total: uint16, id: uint16, protocol: byte, src: uint32, dst: uint32)
    requires p.data == [0x45] + Zeros(BASE_HEADER - 1)
    modifies p
    ensures p.data == Header(total, id, protocol, 0, src, dst)
  {
    p.Write(0, TYPE_OF_SERVICE);
    p.WriteUint16(total, TOTAL_LENGTH);
    p.WriteUint16(id, IDENTIFICATION);
    p.WriteUint16(0, FLAGS_AND_FRAGMENT_OFFSET);
    p.Write(0xFF, TIME_TO_LIVE);
    p.Write(protocol, PROTOCOL);
    p.WriteUint16(0, CHECKSUM);
    p.WriteUint32(src, SRC);
    p.WriteUint32(dst, DST);
    HeaderWrites(total, id, protocol, src, dst);
  }

  method SealHeader(p: BinaryPayload, ghost total: uint16, ghost id: uint16, ghost protocol: byte, ghost src: uint32,
                    ghost dst: uint32)
    requires p.data == Header(total, id, protocol, 0, src, dst)
    modifies p
    ensures p.data == Header(total, id, protocol, HeaderChecksum(total, id, protocol, src, dst), src, dst)
  {
    HeaderSealed(total, id, protocol, src, dst);
    SetCheckSum(p);
  }

  method FillPayload(p: BinaryPayload, ghost total: uint16, ghost id: uint16, ghost protocol: byte, ghost c: uint16,
                     ghost src: uint32, ghost dst: uint32, d: bytes)
    requires p.data == Header(total, id, protocol, c, src, dst) && total == BASE_HEADER + |d|
    modifies p
    ensures p.data == Header(total, id, protocol, c, src, dst) + d
  {
    PayloadKeepsHeader(total, id, protocol, c, src, dst, d);
    SetPayload(p, d);
  }

  method NewPacket(id: uint16, protocol: byte, src: uint32, dst: uint32, d: bytes) returns (p: BinaryPayload)
    requires |d| <= MAX_PAYLOAD
    ensures fresh(p) && p.data == Packet(id, protocol, src, dst, d)
  {
    p := NewHeader();
    var total := HeaderBytes(p.data) + |d|;
    FillHeader(p, total, id, protocol, src, dst);
    SealHeader(p, total, id, protocol, src, dst);
    FillPayload(p, total, id, protocol, HeaderChecksum(total, id, protocol, src, dst), src, dst, d);
  }
}
