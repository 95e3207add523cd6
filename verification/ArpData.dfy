/** ARP packets (RFC 826): a fixed header, then four address fields whose offsets depend on
    the two length bytes of the header. */
module ArpData {
  import opened Bytes

  const ARP_HEADER_SIZE := 8
  const HARDWARE_TYPE := 0
  const PROTOCOL_TYPE := 2
  const HARDWARE_LENGTH := 4
  const PROTOCOL_LENGTH := 5
  const OPERATION := 6

  const OP_REQUEST: uint16 := 1
  const OP_REPLY: uint16 := 2

  datatype Field = SenderHardware | SenderProtocol | TargetHardware | TargetProtocol

  function HardwareLength(p: bytes): nat
    requires |p| >= ARP_HEADER_SIZE
  {
    At(p, HARDWARE_LENGTH)
  }

  function ProtocolLength(p: bytes): nat
    requires |p| >= ARP_HEADER_SIZE
  {
    At(p, PROTOCOL_LENGTH)
  }

  /** The buffer reaches to the end of its last field. */
  predicate WellSized(p: bytes) {
    |p| >= ARP_HEADER_SIZE && |p| >= ARP_HEADER_SIZE + 2 * HardwareLength(p) + 2 * ProtocolLength(p)
  }

  function Length(p: bytes, f: Field): nat
    requires |p| >= ARP_HEADER_SIZE
  {
    if f.SenderHardware? || f.TargetHardware? then HardwareLength(p) else ProtocolLength(p)
  }

  function Offset(p: bytes, f: Field): nat
    requires |p| >= ARP_HEADER_SIZE
  {
    match f
    case SenderHardware => ARP_HEADER_SIZE
    case SenderProtocol => ARP_HEADER_SIZE + HardwareLength(p)
    case TargetHardware => ARP_HEADER_SIZE + HardwareLength(p) + ProtocolLength(p)
    case TargetProtocol => ARP_HEADER_SIZE + HardwareLength(p) * 2 + ProtocolLength(p)
  }

  function Get(p: bytes, f: Field): (r: bytes)
    requires WellSized(p)
    ensures |r| == Length(p, f)
  {
    p[Offset(p, f)..Offset(p, f) + Length(p, f)]
  }

  function Set(p: bytes, f: Field, v: bytes): (r: bytes)
    requires WellSized(p) && |v| == Length(p, f)
    ensures |r| == |p|
  {
    Put(p, v, Offset(p, f))
  }

  method GetAddress(p: BinaryPayload, len: nat, offset: nat) returns (ret: bytes)
    requires offset + len <= |p.data|
    ensures ret == p.data[offset..offset + len]
  {
    ret := [];
    for i := 0 to len
      invariant ret == p.data[offset..offset + i]
    {
      ret := ret + [p.data[i + offset]];
    }
  }

  method GetField(p: BinaryPayload, f: Field) returns (ret: bytes)
    requires WellSized(p.data)
    ensures ret == Get(p.data, f)
  {
    ret := GetAddress(p, Length(p.data, f), Offset(p.data, f));
  }

  method SetField(p: BinaryPayload, f: Field, address: bytes)
    requires WellSized(p.data) && |address| == Length(p.data, f)
    modifies p
    ensures p.data == Set(old(p.data), f, address)
  {
    p.WriteVector(address, Offset(p.data, f));
  }

  function Header(hardwareType: uint16, protocolType: uint16, hl: byte, pl: byte, op: uint16): (r: bytes)
    ensures |r| == ARP_HEADER_SIZE
  {
    U16(hardwareType) + U16(protocolType) + [hl, pl] + U16(op)
  }

  method ArpDataFactory(hardwareType: uint16, protocolType: uint16, hl: byte, pl: byte, op: uint16)
    returns (p: BinaryPayload)
    ensures fresh(p) && p.data == Header(hardwareType, protocolType, hl, pl, op) + Zeros(hl as int * 2 + pl as int * 2)
  {
    var size := ARP_HEADER_SIZE + hl as int * 2 + pl as int * 2;
    p := new BinaryPayload(Zeros(size));
    p.WriteUint16(hardwareType, HARDWARE_TYPE);
    p.WriteUint16(protocolType, PROTOCOL_TYPE);
    p.Write(hl, HARDWARE_LENGTH);
    p.Write(pl, PROTOCOL_LENGTH);
    p.WriteUint16(op, OPERATION);
    HeaderWrites(Zeros(size), hardwareType, protocolType, hl, pl, op);
    assert Zeros(size)[ARP_HEADER_SIZE..] == Zeros(hl as int * 2 + pl as int * 2);
  }

  lemma HeaderWrites(z: bytes, hardwareType: uint16, protocolType: uint16, hl: byte, pl: byte, op: uint16)
    requires |z| >= ARP_HEADER_SIZE
    ensures var h := Put(Put(z, U16(hardwareType), HARDWARE_TYPE), U16(protocolType), PROTOCOL_TYPE);
            Put(Put(Put(h, [hl], HARDWARE_LENGTH), [pl], PROTOCOL_LENGTH), U16(op), OPERATION)
            == Header(hardwareType, protocolType, hl, pl, op) + z[ARP_HEADER_SIZE..]
  {
    var h1 := Put(z, U16(hardwareType), HARDWARE_TYPE);
    assert h1 == U16(hardwareType) + z[2..];
    var h2 := Put(h1, U16(protocolType), PROTOCOL_TYPE);
    assert h2 == U16(hardwareType) + U16(protocolType) + z[4..];
    var h3 := Put(Put(h2, [hl], HARDWARE_LENGTH), [pl], PROTOCOL_LENGTH);
    assert h3 == U16(hardwareType) + U16(protocolType) + [hl, pl] + z[6..];
  }

  // ---------------------------------------------------------------- the codec, for all lengths

  /** The fields lie side by side and fill a packet of the factory's size up. */
  lemma FieldsTile(p: bytes)
    requires WellSized(p) && |p| == ARP_HEADER_SIZE + 2 * HardwareLength(p) + 2 * ProtocolLength(p)
    ensures p == p[..ARP_HEADER_SIZE] + Get(p, SenderHardware) + Get(p, SenderProtocol)
                 + Get(p, TargetHardware) + Get(p, TargetProtocol)
  {
  }

  lemma PutAt(p: bytes, v: bytes, o: nat, i: nat)
    requires o + |v| <= |p| && i < |p|
    ensures Put(p, v, o)[i] == if o <= i < o + |v| then v[i - o] else p[i]
  {
  }

  lemma PutSlices(p: bytes, v: bytes, o: nat, a: nat, b: nat)
    requires o + |v| <= |p| && a <= b <= |p|
    ensures a == o && b == o + |v| ==> Put(p, v, o)[a..b] == v
    ensures b <= o || o + |v| <= a ==> Put(p, v, o)[a..b] == p[a..b]
  {
    forall i | a <= i < b
      ensures Put(p, v, o)[i] == if o <= i < o + |v| then v[i - o] else p[i]
    {
      PutAt(p, v, o, i);
    }
  }

  /** Distinct fields do not overlap. */
  lemma FieldsDisjoint(p: bytes, f: Field, g: Field)
    requires |p| >= ARP_HEADER_SIZE && f != g
    ensures Offset(p, f) + Length(p, f) <= Offset(p, g) || Offset(p, g) + Length(p, g) <= Offset(p, f)
  {
  }

  lemma SameHeader(p: bytes, q: bytes)
    requires |p| == |q| >= ARP_HEADER_SIZE && q[..ARP_HEADER_SIZE] == p[..ARP_HEADER_SIZE]
    ensures HardwareLength(q) == HardwareLength(p) && ProtocolLength(q) == ProtocolLength(p)
  {
    assert At(q[..ARP_HEADER_SIZE], HARDWARE_LENGTH) == At(p[..ARP_HEADER_SIZE], HARDWARE_LENGTH);
    assert At(q[..ARP_HEADER_SIZE], PROTOCOL_LENGTH) == At(p[..ARP_HEADER_SIZE], PROTOCOL_LENGTH);
  }

  lemma SetKeepsHeader(p: bytes, f: Field, v: bytes)
    requires WellSized(p) && |v| == Length(p, f)
    ensures var q := Set(p, f, v); q[..ARP_HEADER_SIZE] == p[..ARP_HEADER_SIZE]
    ensures HardwareLength(Set(p, f, v)) == HardwareLength(p) && ProtocolLength(Set(p, f, v)) == ProtocolLength(p)
  {
    PutSlices(p, v, Offset(p, f), 0, ARP_HEADER_SIZE);
    SameHeader(p, Set(p, f, v));
  }

  lemma GetSlice(p: bytes, q: bytes, g: Field)
    requires WellSized(p) && |p| == |q|
    requires HardwareLength(q) == HardwareLength(p) && ProtocolLength(q) == ProtocolLength(p)
    ensures WellSized(q) && Get(q, g) == q[Offset(p, g)..Offset(p, g) + Length(p, g)]
  {
  }

  /** A setter is read back, and disturbs neither the header nor another field. */
  lemma SetGet(p: bytes, f: Field, v: bytes, g: Field)
    requires WellSized(p) && |v| == Length(p, f)
    ensures Set(p, f, v)[..ARP_HEADER_SIZE] == p[..ARP_HEADER_SIZE]
    ensures WellSized(Set(p, f, v)) && Get(Set(p, f, v), g) == if g == f then v else Get(p, g)
  {
    SetKeepsHeader(p, f, v);
    GetSlice(p, Set(p, f, v), g);
    SlicesOfSet(p, f, v, g);
  }

  lemma SlicesOfSet(p: bytes, f: Field, v: bytes, g: Field)
    requires WellSized(p) && |v| == Length(p, f)
    ensures Set(p, f, v)[Offset(p, g)..Offset(p, g) + Length(p, g)] == if g == f then v else Get(p, g)
  {
    var o, a, b := Offset(p, f), Offset(p, g), Offset(p, g) + Length(p, g);
    PutSlices(p, v, o, a, b);
    if f != g {
      FieldsDisjoint(p, f, g);
      assert Put(p, v, o)[a..b] == p[a..b];
    }
  }

  type Writes = seq<(Field, bytes)>

  /** Every value has the length its field has in p. */
  predicate Sized(p: bytes, ws: Writes)
    requires |p| >= ARP_HEADER_SIZE
  {
    forall i :: 0 <= i < |ws| ==> |ws[i].1| == Length(p, ws[i].0)
  }

  /** What is expected in a field after a list of writes: the last value written to it. */
  function Latest(ws: Writes, f: Field, initial: bytes): bytes {
    if ws == [] then initial
    else if ws[|ws| - 1].0 == f then ws[|ws| - 1].1
    else Latest(ws[..|ws| - 1], f, initial)
  }

  /** The packet after a list of setter calls. */
  function Written(p: bytes, ws: Writes): (r: bytes)
    requires WellSized(p) && Sized(p, ws)
    ensures |r| == |p| && r[..ARP_HEADER_SIZE] == p[..ARP_HEADER_SIZE]
  {
    if ws == [] then p
    else
      var q := Written(p, ws[..|ws| - 1]);
      var w := ws[|ws| - 1];
      SameHeader(p, q);
      SetGet(q, w.0, w.1, w.0);
      Set(q, w.0, w.1)
  }

  /** Setters in any order and number: every field reads back the last value written to it,
      or what it held before. */
  lemma {:induction false} WritesReadBack(p: bytes, ws: Writes, g: Field)
    requires WellSized(p) && Sized(p, ws)
    ensures var q := Written(p, ws);
            WellSized(q) && Get(q, g) == Latest(ws, g, Get(p, g))
  {
    SameHeader(p, Written(p, ws));
    if ws != [] {
      var before, w := ws[..|ws| - 1], ws[|ws| - 1];
      WritesReadBack(p, before, g);
      SameHeader(p, Written(p, before));
      SetGet(Written(p, before), w.0, w.1, g);
    }
  }
}
