/** Ethernet frames, padded to their minimum size, and the device that puts them on the wire. */
module EtherFrame {
  import opened Wrappers
  import opened Bytes

  const ETHER_ADDR_LEN := 6
  const HEADER_SIZE := 14
  const FRAME_MIN_SIZE := 60
  const FRAME_MAX_SIZE := 1514
  const TYPE_OFFSET := 12

  const ETHER_TYPE_IP: uint16 := 0x0800
  const ETHER_TYPE_ARP: uint16 := 0x0806
  const BROADCAST: bytes := [0xFF, 0xFF, 0xFF, 0xFF, 0xFF, 0xFF]

  /** The zeros that fill a short body up to the minimum frame size. */
  function Padding(body: bytes): (r: bytes)
    ensures HEADER_SIZE + |body| + |r| >= FRAME_MIN_SIZE
    ensures r == [] || HEADER_SIZE + |body| + |r| == FRAME_MIN_SIZE
  {
    Zeros(if HEADER_SIZE + |body| < FRAME_MIN_SIZE then FRAME_MIN_SIZE - HEADER_SIZE - |body| else 0)
  }

  function Frame(dst: bytes, src: bytes, etherType: uint16, body: bytes): bytes {
    dst + src + U16(etherType) + body + Padding(body)
  }

  function Body(frame: bytes): bytes
    requires |frame| >= HEADER_SIZE
  {
    frame[HEADER_SIZE..]
  }

  lemma FrameRoundTrip(dst: bytes, src: bytes, etherType: uint16, body: bytes)
    requires |dst| == |src| == ETHER_ADDR_LEN
    ensures var f := Frame(dst, src, etherType, body);
            && |f| >= FRAME_MIN_SIZE && f[..6] == dst && f[6..12] == src
            && ReadUint16(f, TYPE_OFFSET) == etherType && Body(f) == body + Padding(body)
  {
    var f := Frame(dst, src, etherType, body);
    ReadBack16(dst + src, etherType, body + Padding(body));
    assert f == (dst + src) + U16(etherType) + (body + Padding(body));
  }

  method WriteEtherAddr(p: BinaryPayload, addr: bytes, offset: nat) returns (r: Result<()>)
    modifies p
    ensures |addr| != ETHER_ADDR_LEN ==> r == Err(InvalidEtherAddress) && p.data == old(p.data)
    ensures |addr| == ETHER_ADDR_LEN ==>
              r == Ok(()) &&
              p.data == Put(Resize(old(p.data), if |old(p.data)| < offset + 6 then offset + 6 else |old(p.data)|),
                            addr, offset)
  {
    if |addr| != ETHER_ADDR_LEN {
      return Err(InvalidEtherAddress);
    }
    if |p.data| < offset + ETHER_ADDR_LEN {
      p.ResizeTo(offset + ETHER_ADDR_LEN);
    } else {
      assert Resize(p.data, |p.data|) == p.data;
    }
    p.WriteVector(addr, offset);
    r := Ok(());
  }

  /** Whatever the buffer held after its header is replaced. */
  method SetBody(p: BinaryPayload, body: bytes)
    modifies p
    ensures p.data == Resize(old(p.data), HEADER_SIZE) + body + Padding(body)
  {
    p.ResizeTo(|body| + HEADER_SIZE);
    p.WriteVector(body, HEADER_SIZE);
    assert p.data == Resize(old(p.data), HEADER_SIZE) + body;
    if |p.data| < FRAME_MIN_SIZE {
      p.ResizeTo(FRAME_MIN_SIZE);
    }
  }

  /** The network device: the bytes it has written, frame by frame. */
  class EtherDevice {
    const address: bytes
    var written: seq<bytes>

    constructor (address: bytes)
      requires |address| == ETHER_ADDR_LEN
      ensures this.address == address && written == []
    {
      this.address := address;
      written := [];
    }

    method Transmit(data: bytes, dst: bytes, etherType: uint16) returns (r: Result<()>)
      requires |address| == ETHER_ADDR_LEN
      modifies this
      ensures |dst| != ETHER_ADDR_LEN ==> r == Err(InvalidEtherAddress) && written == old(written)
      ensures |dst| == ETHER_ADDR_LEN ==>
                r == Ok(()) && written == old(written) + [Frame(dst, address, etherType, data)]
    {
      if |dst| != ETHER_ADDR_LEN {
        return Err(InvalidEtherAddress);
      }
      var frame := new BinaryPayload(Zeros(HEADER_SIZE));
      r := WriteEtherAddr(frame, dst, 0);
      r := WriteEtherAddr(frame, address, 6);
      frame.WriteUint16(etherType, TYPE_OFFSET);
      assert frame.data == dst + address + U16(etherType);
      assert Resize(frame.data, HEADER_SIZE) == frame.data;
      SetBody(frame, data);
      written := written + [frame.data];
    }
  }
}
