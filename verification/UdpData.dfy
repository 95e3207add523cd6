/** UDP datagrams (RFC 768) and the checksum that both ends take over a pseudo header and the datagram. */
module UdpData {
  import opened Bytes
  import opened IpUtils

  const HEADER_SIZE := 8
  const MAX_PAYLOAD := 0xFFFF - HEADER_SIZE

  const SRC_PORT := 0
  const DST_PORT := 2
  const LENGTH := 4
  const CHECKSUM := 6

  const UDP_TYPE: byte := 0x11

  // ---------------------------------------------------------------- layout

  /** The datagram as RFC 768 draws it. */
  function Datagram(srcPort: uint16, dstPort: uint16, checksum: uint16, d: bytes): (r: bytes)
    requires |d| <= MAX_PAYLOAD
    ensures |r| == HEADER_SIZE + |d|
  {
    U16(srcPort) + U16(dstPort) + U16(HEADER_SIZE + |d|) + U16(checksum) + d
  }

  /** The pseudo header that RFC 768 prefixes to the datagram. */
  function PseudoHeader(src: uint32, dst: uint32, length: uint16): (r: bytes)
    ensures |r| == 12
  {
    U32(src) + U32(dst) + [0, UDP_TYPE] + U16(length)
  }

  method NewPseudoHeader(src: uint32, dst: uint32, length: uint16) returns (p: BinaryPayload)
    ensures fresh(p) && p.data == PseudoHeader(src, dst, length)
  {
    p := new BinaryPayload(Zeros(12));
    p.WriteUint32(src, 0);
    p.WriteUint32(dst, 4);
    p.Write(UDP_TYPE, 9);
    p.WriteUint16(length, 10);
    PseudoWrites(src, dst, length);
  }

  lemma PseudoWrites(src: uint32, dst: uint32, length: uint16)
    ensures Put(Put(Put(Put(Zeros(12), U32(src), 0), U32(dst), 4), [UDP_TYPE], 9), U16(length), 10)
            == PseudoHeader(src, dst, length)
  {
    var p1 := Put(Zeros(12), U32(src), 0);
    assert p1 == U32(src) + Zeros(8);
    var p2 := Put(p1, U32(dst), 4);
    assert p2 == U32(src) + U32(dst) + Zeros(4);
    var p3 := Put(p2, [UDP_TYPE], 9);
    assert p3 == U32(src) + U32(dst) + [0, UDP_TYPE] + Zeros(2);
  }

  method SetPayload(p: BinaryPayload, d: bytes)
    requires |d| <= MAX_PAYLOAD
    modifies p
    ensures p.data == Put(Resize(old(p.data), HEADER_SIZE + |d|), d, HEADER_SIZE)
  {
    p.ResizeTo(HEADER_SIZE + |d|);
    p.WriteVector(d, HEADER_SIZE);
  }

  method NewDatagram(srcPort: uint16, dstPort: uint16, d: bytes) returns (p: BinaryPayload)
    requires |d| <= MAX_PAYLOAD
    ensures fresh(p) && p.data == Datagram(srcPort, dstPort, 0, d)
  {
    p := new BinaryPayload(Zeros(HEADER_SIZE));
    p.WriteUint16(srcPort, SRC_PORT);
    p.WriteUint16(dstPort, DST_PORT);
    SetPayload(p, d);
    p.WriteUint16(0, CHECKSUM);
    p.WriteUint16(|p.data|, LENGTH);
    DatagramWrites(srcPort, dstPort, d);
  }

  /** The stores at field offsets build the datagram left to right. */
  lemma DatagramWrites(srcPort: uint16, dstPort: uint16, d: bytes)
    requires |d| <= MAX_PAYLOAD
    ensures var h := Put(Put(Zeros(HEADER_SIZE), U16(srcPort), SRC_PORT), U16(dstPort), DST_PORT);
            var z := Put(Put(Resize(h, HEADER_SIZE + |d|), d, HEADER_SIZE), U16(0), CHECKSUM);
            Put(z, U16(HEADER_SIZE + |d|), LENGTH) == Datagram(srcPort, dstPort, 0, d)
  {
    var h1 := Put(Zeros(HEADER_SIZE), U16(srcPort), SRC_PORT);
    assert h1 == U16(srcPort) + Zeros(6);
    var h2 := Put(h1, U16(dstPort), DST_PORT);
    assert h2 == U16(srcPort) + U16(dstPort) + Zeros(4);
    var h3 := Put(Resize(h2, HEADER_SIZE + |d|), d, HEADER_SIZE);
    assert h3 == U16(srcPort) + U16(dstPort) + Zeros(4) + d;
  }

  /** What `UdpData::payload()` hands to the application: its size is the length field,
      header included, so the data is followed by as many zeros as are missing. */
  function Payload(p: bytes): (r: bytes)
    requires |p| >= HEADER_SIZE && ReadUint16(p, LENGTH) >= |p| - HEADER_SIZE
    ensures |r| == ReadUint16(p, LENGTH)
  {
    p[HEADER_SIZE..] + Zeros(ReadUint16(p, LENGTH) - (|p| - HEADER_SIZE))
  }

  lemma DatagramFields(srcPort: uint16, dstPort: uint16, checksum: uint16, d: bytes)
    requires |d| <= MAX_PAYLOAD
    ensures var p := Datagram(srcPort, dstPort, checksum, d);
            && ReadUint16(p, SRC_PORT) == srcPort && ReadUint16(p, DST_PORT) == dstPort
            && ReadUint16(p, LENGTH) == |p| && ReadUint16(p, CHECKSUM) == checksum
            && Payload(p) == d + Zeros(HEADER_SIZE)
  {
    var p := Datagram(srcPort, dstPort, checksum, d);
    assert At(p, 0) == srcPort / 0x100 && At(p, 1) == srcPort % 0x100;
    assert At(p, 2) == dstPort / 0x100 && At(p, 3) == dstPort % 0x100;
    assert At(p, 4) == |p| / 0x100 && At(p, 5) == |p| % 0x100;
    assert At(p, 6) == checksum / 0x100 && At(p, 7) == checksum % 0x100;
    assert p[HEADER_SIZE..] == d;
  }

  /** Where the fields stand. */
  lemma DatagramLayout(srcPort: uint16, dstPort: uint16, checksum: uint16, d: bytes)
    requires |d| <= MAX_PAYLOAD
    ensures var p := Datagram(srcPort, dstPort, checksum, d);
            && p[..2] == U16(srcPort) && p[2..4] == U16(dstPort) && p[4..6] == U16(8 + |d|) && p[6..8] == U16(checksum)
            && p[8..] == d
  {
  }

  // ---------------------------------------------------------------- checksum

  /** The checksum of the pseudo header and the datagram, each folded on its own. */
  function UdpChecksum(src: uint32, dst: uint32, p: bytes): uint16
    requires |p| <= 0xFFFF && |p| % 2 == 0
  {
    Complement(Fold(WordSum(PseudoHeader(src, dst, |p|))), WordSum(p))
  }

  /** The same, given the folded sum of the pseudo header and the sum of the datagram. */
  function Complement(pseudo: uint16, sum: nat): uint16 {
    0xFFFF - Fold(pseudo + Fold(sum))
  }

  /** Two 16-bit values, summed and folded as the last step of the checksum. */
  method FoldedPair(a: uint16, b: uint16) returns (r: uint16)
    ensures r == Fold(a + b)
  {
    var tmp := [a, b];
    Sum16Pair(a, b);
    assert Range16(tmp, 0, |tmp|) == tmp;
    r := CalculateChecksumUint16(tmp, 0, |tmp|);
  }

  lemma Sum16Pair(a: uint16, b: uint16)
    ensures Sum16([a, b]) == a + b
  {
    var two: seq<uint16>, one: seq<uint16> := [a, b], [a];
    assert one[..0] == [] && two[..1] == one;
    assert Sum16(one) == a;
  }

  /** The steps that sender and receiver share. */
  method ComputeChecksum(src: uint32, dst: uint32, p: bytes) returns (c: uint16)
    requires |p| <= 0xFFFF && |p| % 2 == 0
    ensures c == UdpChecksum(src, dst, p)
  {
    var pseudo := NewPseudoHeader(src, dst, |p|);
    var pseudoChecksum := FoldedSum(pseudo.data);
    var payloadChecksum := FoldedSum(p);
    var folded := FoldedPair(pseudoChecksum, payloadChecksum);
    c := 0xFFFF - folded;
  }

  /** The checksum is that of RFC 768, the complement of the fully folded sum of the pseudo header
      and the datagram together, if and only if neither of the two sums has a second carry. */
  lemma ChecksumIsRfc768(src: uint32, dst: uint32, p: bytes, pseudo: nat, sum: nat)
    requires |p| <= 0xFFFF && |p| % 2 == 0
    requires pseudo == WordSum(PseudoHeader(src, dst, |p|)) && sum == WordSum(p)
    ensures UdpChecksum(src, dst, p) == 0xFFFF - EndAroundFold(pseudo + sum) <==>
            NoSecondCarry(pseudo) && NoSecondCarry(sum)
  {
    PseudoFits(src, dst, |p|);
    SumFits(p);
    ComplementIsRfc1071(pseudo, sum);
  }

  /** Of any datagram, the checksum is the complement of the full fold of the two folded sums, and
      is left at zero where that is zero. */
  lemma ChecksumExactly(src: uint32, dst: uint32, p: bytes, pseudo: nat, sum: nat)
    requires |p| <= 0xFFFF && |p| % 2 == 0
    requires pseudo == WordSum(U32(src) + U32(dst) + [0, 17] + U16(|p|)) && sum == WordSum(p)
    ensures UdpChecksum(src, dst, p) == 0xFFFF - EndAroundFold(Fold(pseudo) + Fold(sum))
  {
    assert PseudoHeader(src, dst, |p|) == U32(src) + U32(dst) + [0, 17] + U16(|p|);
    OuterFoldIsExact(Fold(pseudo), Fold(sum));
  }

  lemma PseudoFits(src: uint32, dst: uint32, length: uint16)
    ensures 0 < WordSum(PseudoHeader(src, dst, length)) < 0xFFFF_0000
  {
    PseudoSum(src, dst, length);
  }

  lemma ComplementIsRfc1071(p: nat, q: nat)
    requires 0 < p < 0xFFFF_0000 && q < 0xFFFF_0000
    ensures Complement(Fold(p), q) == 0xFFFF - EndAroundFold(p + q) <==> NoSecondCarry(p) && NoSecondCarry(q)
  {
    FoldedPairIsRfc1071(p, q);
  }

  lemma FoldedPairIsRfc1071(p: nat, q: nat)
    requires 0 < p < 0xFFFF_0000 && q < 0xFFFF_0000
    ensures Fold(Fold(p) + Fold(q)) == EndAroundFold(p + q) <==> NoSecondCarry(p) && NoSecondCarry(q)
  {
    var m := FoldLosesCarry(p);
    var n := FoldLosesCarry(q);
    OuterFoldIsExact(Fold(p), Fold(q));
    EndAroundFoldResidue(Fold(p) + Fold(q));
    EndAroundFoldResidue(p + q);
    ResiduesDiffer(Fold(p) + Fold(q), p + q, Lost(p) + Lost(q), m + n);
  }

  function Lost(sum: nat): nat {
    if NoSecondCarry(sum) then 0 else 1
  }

  /** A second carry is lost: the fold is then one less than it should be. */
  lemma FoldLosesCarry(sum: nat) returns (m: nat)
    requires sum < 0xFFFF_0000
    ensures sum == Fold(sum) + Lost(sum) + 0xFFFF * m
    ensures sum > 0 && NoSecondCarry(sum) ==> Fold(sum) > 0
  {
    var h, l := sum / 0x1_0000, sum % 0x1_0000;
    FoldParts(h, l);
    m := if NoSecondCarry(sum) then h else h + 1;
  }

  /** The value of a full fold, as a function of the residue. */
  function Residue(x: nat): nat {
    if x == 0 then 0 else if x % 0xFFFF == 0 then 0xFFFF else x % 0xFFFF
  }

  lemma ResiduesDiffer(s: nat, t: nat, k: nat, m: nat)
    requires t == s + k + 0xFFFF * m && k <= 2 && t > 0 && (k == 0 ==> s > 0)
    ensures Residue(s) == Residue(t) <==> k == 0
  {
    assert t % 0xFFFF == (s % 0xFFFF + k) % 0xFFFF;
  }

  /** The sum of two folded values never has a second carry: folding it is an exact end-around add. */
  lemma OuterFoldIsExact(p: uint16, q: uint16)
    ensures NoSecondCarry(p + q) && Fold(p + q) == EndAroundFold(p + q)
  {
    GeneratedIsRfc1071(p + q);
  }

  /** A condition on what the sender already has in hand: the folded pseudo header and
      the carries of its datagram with a zero checksum field. */
  predicate Deliverable(pseudo: uint16, zeroSum: nat) {
    var h, l := zeroSum / 0x1_0000, zeroSum % 0x1_0000;
    if h + l <= 0xFFFF
    then pseudo + h + l <= 0xFFFF || pseudo + h <= 0xFFFE || pseudo == 0xFFFF
    else pseudo + h >= 0x1_0000
  }

  lemma DeliverableExact(pseudo: uint16, zeroSum: nat)
    requires zeroSum < 0xFFFF_0000
    ensures var c := 0xFFFF - Fold(pseudo + Fold(zeroSum));
            Fold(pseudo + Fold(zeroSum + c)) == 0xFFFF <==> Deliverable(pseudo, zeroSum)
  {
    var h, l := zeroSum / 0x1_0000, zeroSum % 0x1_0000;
    var c := 0xFFFF - Fold(pseudo + Fold(zeroSum));
    assert zeroSum == 0x1_0000 * h + l && zeroSum + c == 0x1_0000 * h + (l + c);
    DeliverableHalves(pseudo, h, l);
  }

  lemma DeliverableHalves(pseudo: uint16, h: nat, l: uint16)
    requires h <= 0xFFFE
    ensures var c := 0xFFFF - Fold(pseudo + Fold(0x1_0000 * h + l));
            Fold(pseudo + Fold(0x1_0000 * h + (l + c))) == 0xFFFF
            <==> if h + l <= 0xFFFF
                 then pseudo + h + l <= 0xFFFF || pseudo + h <= 0xFFFE || pseudo == 0xFFFF
                 else pseudo + h >= 0x1_0000
  {
    var q := Refolded(h, l);
    FoldPair(pseudo, q);
    var c := 0xFFFF - Fold(pseudo + q);
    var q' := Refolded(h, l + c);
    FoldPair(pseudo, q');
    CarriesCancel(pseudo, h, l, q, c, q');
  }

  /** `e` with its 17th bit added back at the other end. */
  function EndAround(e: nat): int {
    if e <= 0xFFFF then e else e - 0xFFFF
  }

  function Cut(e: nat): int {
    if e <= 0xFFFF then e else e - 0x1_0000
  }

  /** The arithmetic of both ends: h and l are the halves of the sum, q and q' its two folds. */
  lemma CarriesCancel(p: uint16, h: nat, l: uint16, q: nat, c: nat, q': nat)
    requires h <= 0xFFFE
    requires q == Cut(h + l) && c == 0xFFFF - EndAround(p + q)
    requires q' == if l + c <= 0xFFFF then Cut(h + l + c) else Cut(h + 1 + l + c - 0x1_0000)
    ensures EndAround(p + q') == 0xFFFF
            <==> if h + l <= 0xFFFF
                 then p + h + l <= 0xFFFF || p + h <= 0xFFFE || p == 0xFFFF
                 else p + h >= 0x1_0000
  {
  }

  lemma FoldPair(p: uint16, q: uint16)
    ensures Fold(p + q) == EndAround(p + q)
  {
  }

  /** The fold of a sum whose low half has overflowed at most once. */
  lemma Refolded(h: nat, l: nat) returns (q: uint16)
    requires h <= 0xFFFE && l <= 0x1_FFFE
    ensures q == if l <= 0xFFFF then Cut(h + l) else Cut(h + 1 + l - 0x1_0000)
    ensures q == Fold(0x1_0000 * h + l)
  {
    if l <= 0xFFFF {
      FoldParts(h, l);
    } else {
      FoldParts(h + 1, l - 0x1_0000);
    }
    q := Fold(0x1_0000 * h + l);
  }

  /** Filling in the checksum field moves the word sum by exactly its value. */
  lemma FilledSum(srcPort: uint16, dstPort: uint16, c: uint16, d: bytes)
    requires |d| <= MAX_PAYLOAD && |d| % 2 == 0
    ensures Put(Datagram(srcPort, dstPort, 0, d), U16(c), CHECKSUM) == Datagram(srcPort, dstPort, c, d)
    ensures WordSum(Datagram(srcPort, dstPort, c, d)) == WordSum(Datagram(srcPort, dstPort, 0, d)) + c
  {
    var z := Datagram(srcPort, dstPort, 0, d);
    WordSumPut(z, c, CHECKSUM);
    DatagramFields(srcPort, dstPort, 0, d);
    assert Put(z, U16(c), CHECKSUM) == Datagram(srcPort, dstPort, c, d);
  }

  /** The datagram that `udp_output` hands to IPv4. */
  function Sealed(src: uint32, srcPort: uint16, dst: uint32, dstPort: uint16, d: bytes): bytes
    requires |d| <= MAX_PAYLOAD && |d| % 2 == 0
  {
    Datagram(srcPort, dstPort, UdpChecksum(src, dst, Datagram(srcPort, dstPort, 0, d)), d)
  }

  /** What is sent is the datagram with the checksum that is taken while its field holds zeros. */
  lemma SealedExactly(src: uint32, srcPort: uint16, dst: uint32, dstPort: uint16, d: bytes, z: bytes)
    requires |d| <= MAX_PAYLOAD && |d| % 2 == 0 && z == U16(srcPort) + U16(dstPort) + U16(8 + |d|) + [0, 0] + d
    ensures Sealed(src, srcPort, dst, dstPort, d) ==
            U16(srcPort) + U16(dstPort) + U16(8 + |d|) + U16(UdpChecksum(src, dst, z)) + d
  {
    assert z == Datagram(srcPort, dstPort, 0, d);
  }

  predicate SealedDeliverable(src: uint32, srcPort: uint16, dst: uint32, dstPort: uint16, d: bytes)
    requires |d| <= MAX_PAYLOAD && |d| % 2 == 0
  {
    Deliverable(Fold(WordSum(PseudoHeader(src, dst, HEADER_SIZE + |d|))), WordSum(Datagram(srcPort, dstPort, 0, d)))
  }

  lemma SumFits(p: bytes)
    requires |p| <= 0xFFFF && |p| % 2 == 0
    ensures WordSum(p) < 0xFFFF_0000
  {
    WordSumBound(p);
  }

  lemma VerdictOfSums(pseudo: uint16, zeroSum: nat)
    requires zeroSum < 0xFFFF_0000
    ensures Complement(pseudo, zeroSum + Complement(pseudo, zeroSum)) == 0 <==> Deliverable(pseudo, zeroSum)
  {
    DeliverableExact(pseudo, zeroSum);
  }

  /** UDP checksum round trip, exactly: the receiver recomputes zero if and only if the
      sender's carries are deliverable. */
  lemma ChecksumRoundTrip(src: uint32, srcPort: uint16, dst: uint32, dstPort: uint16, d: bytes)
    requires |d| <= MAX_PAYLOAD && |d| % 2 == 0
    ensures UdpChecksum(src, dst, Sealed(src, srcPort, dst, dstPort, d)) == 0
            <==> SealedDeliverable(src, srcPort, dst, dstPort, d)
  {
    var z := Datagram(srcPort, dstPort, 0, d);
    var pseudo := Fold(WordSum(PseudoHeader(src, dst, |z|)));
    FilledSum(srcPort, dstPort, UdpChecksum(src, dst, z), d);
    SumFits(z);
    VerdictOfSums(pseudo, WordSum(z));
  }

  /** The two sums that decide delivery, read off the inputs. */
  lemma SumsOfFields(src: uint32, srcPort: uint16, dst: uint32, dstPort: uint16, d: bytes)
    requires |d| <= MAX_PAYLOAD && |d| % 2 == 0
    ensures WordSum(Datagram(srcPort, dstPort, 0, d)) == srcPort + dstPort + HEADER_SIZE + |d| + WordSum(d)
    ensures WordSum(PseudoHeader(src, dst, HEADER_SIZE + |d|)) ==
            src / 0x1_0000 + src % 0x1_0000 + dst / 0x1_0000 + dst % 0x1_0000 + UDP_TYPE + HEADER_SIZE + |d|
  {
    DatagramSum(srcPort, dstPort, d);
    PseudoSum(src, dst, HEADER_SIZE + |d|);
  }

  lemma DatagramSum(srcPort: uint16, dstPort: uint16, d: bytes)
    requires |d| <= MAX_PAYLOAD && |d| % 2 == 0
    ensures WordSum(Datagram(srcPort, dstPort, 0, d)) == srcPort + dstPort + HEADER_SIZE + |d| + WordSum(d)
  {
    OneWord(srcPort);
    AppendWord(U16(srcPort), dstPort);
    AppendWord(U16(srcPort) + U16(dstPort), HEADER_SIZE + |d|);
    AppendWord(U16(srcPort) + U16(dstPort) + U16(HEADER_SIZE + |d|), 0);
    WordSumAppend(U16(srcPort) + U16(dstPort) + U16(HEADER_SIZE + |d|) + U16(0), d);
  }

  lemma PseudoSum(src: uint32, dst: uint32, length: uint16)
    ensures WordSum(PseudoHeader(src, dst, length)) ==
            src / 0x1_0000 + src % 0x1_0000 + dst / 0x1_0000 + dst % 0x1_0000 + UDP_TYPE + length
  {
    TwoWords(src);
    AppendTwo(U32(src), dst);
    assert [0, UDP_TYPE] == U16(0x11);
    AppendWord(U32(src) + U32(dst), 0x11);
    AppendWord(U32(src) + U32(dst) + [0, UDP_TYPE], length);
  }

  /** A datagram that the receiver refuses although nothing was altered on the way:
      61.208.0.17 port 65520 to 192.0.2.2 port 7, carrying two zero bytes. */
  lemma SomeDatagramIsRefused(src: uint32, d: bytes)
    requires src == 0x3DD0_0011 && d == [0, 0]
    ensures UdpChecksum(src, 0xC000_0202, Sealed(src, 0xFFF0, 0xC000_0202, 7, d)) != 0
  {
    SumsOfFields(src, 0xFFF0, 0xC000_0202, 7, d);
    OneWord(0);
    assert d == U16(0);
    assert WordSum(Datagram(0xFFF0, 7, 0, d)) == 0x1_0001;
    assert WordSum(PseudoHeader(src, 0xC000_0202, 10)) == 0xFFFE;
    assert !Deliverable(0xFFFE, 0x1_0001);
    ChecksumRoundTrip(src, 0xFFF0, 0xC000_0202, 7, d);
  }
}
