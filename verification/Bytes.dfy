/** Big-endian byte buffers: the values they hold, and the class whose bytes are overwritten in place. */
module Bytes {
  type byte = b: int | 0 <= b < 0x100
  type uint16 = v: int | 0 <= v < 0x1_0000
  type uint32 = v: int | 0 <= v < 0x1_0000_0000
  type bytes = seq<byte>

  function Pow2(k: nat): (r: nat)
    ensures r > 0
  {
    if k == 0 then 1 else 2 * Pow2(k - 1)
  }

  /** Bitwise or of two naturals, one binary digit at a time. */
  function BitOr(a: nat, b: nat): nat
    decreases a + b
  {
    if a == 0 then b
    else if b == 0 then a
    else 2 * BitOr(a / 2, b / 2) + (if a % 2 == 1 || b % 2 == 1 then 1 else 0)
  }

  /** Shifting left by k and or-ing a k-bit value is positional notation. */
  lemma {:induction false} ShiftOrIsSum(a: nat, k: nat, b: nat)
    requires b < Pow2(k)
    ensures BitOr(a * Pow2(k), b) == a * Pow2(k) + b
    decreases k
  {
    if k > 0 && a > 0 && b > 0 {
      var x := a * Pow2(k - 1);
      assert a * Pow2(k) == 2 * x;
      assert x > 0;
      ShiftOrIsSum(a, k - 1, b / 2);
      assert BitOr(2 * x, b) == 2 * BitOr(x, b / 2) + b % 2;
    }
  }

  lemma ByteShiftOr(a: nat, b: nat)
    requires b < 0x100
    ensures BitOr(a * 0x100, b) == a * 0x100 + b
  {
    assert Pow2(8) == 0x100;
    ShiftOrIsSum(a, 8, b);
  }

  lemma NibbleShiftOr(a: nat, b: nat)
    requires b < 0x10
    ensures BitOr(a * 0x10, b) == a * 0x10 + b
  {
    assert Pow2(4) == 0x10;
    ShiftOrIsSum(a, 4, b);
  }

  /** Two wider disjoint ors, as used when four bytes are assembled at once. */
  lemma WideShiftOr(a: nat, b: nat, c: nat)
    requires b < 0x100_0000 && c < 0x1_0000
    ensures BitOr(a * 0x100_0000, b) == a * 0x100_0000 + b
    ensures BitOr(a * 0x1_0000, c) == a * 0x1_0000 + c
  {
    assert Pow2(8) == 0x100;
    assert Pow2(16) == 0x1_0000;
    assert Pow2(24) == 0x100_0000;
    ShiftOrIsSum(a, 24, b);
    ShiftOrIsSum(a, 16, c);
  }

  /** A byte as a plain number, free to be shifted out of its eight bits. */
  function At(data: bytes, i: nat): (r: int)
    requires i < |data|
    ensures 0 <= r < 0x100
  {
    data[i]
  }

  function ReadUint16(data: bytes, offset: nat): (r: uint16)
    requires offset + 2 <= |data|
    ensures r == 0x100 * At(data, offset) + At(data, offset + 1)
  {
    ByteShiftOr(At(data, offset), At(data, offset + 1));
    BitOr(At(data, offset) * 0x100, At(data, offset + 1))
  }

  function ReadUint32(data: bytes, offset: nat): (r: uint32)
    requires offset + 4 <= |data|
    ensures r == 0x100_0000 * At(data, offset) + 0x1_0000 * At(data, offset + 1)
                 + 0x100 * At(data, offset + 2) + At(data, offset + 3)
  {
    var d0, d1, d2, d3 := At(data, offset), At(data, offset + 1), At(data, offset + 2), At(data, offset + 3);
    WideShiftOr(d0, d1 * 0x1_0000, 0);
    WideShiftOr(d0 * 0x100 + d1, 0, d2 * 0x100);
    ByteShiftOr(d0 * 0x1_0000 + d1 * 0x100 + d2, d3);
    BitOr(BitOr(BitOr(d0 * 0x100_0000, d1 * 0x1_0000), d2 * 0x100), d3)
  }

  /** The two bytes, most significant first, that a 16-bit store leaves in the buffer. */
  function U16(v: uint16): bytes {
    [v / 0x100, v % 0x100]
  }

  function U32(v: uint32): bytes {
    [v / 0x100_0000, v / 0x1_0000 % 0x100, v / 0x100 % 0x100, v % 0x100]
  }

  function Zeros(n: nat): bytes {
    seq(n, _ => 0)
  }

  /** `base` with the bytes of `vec` laid over it from `offset` on. */
  function Put(base: bytes, vec: bytes, offset: nat): (r: bytes)
    requires offset + |vec| <= |base|
    ensures |r| == |base|
  {
    base[..offset] + vec + base[offset + |vec|..]
  }

  /** A vector after `resize(n, 0)`: cut short, or filled up with zeros. */
  function Resize(data: bytes, n: nat): (r: bytes)
    ensures |r| == n
    ensures forall i :: 0 <= i < n ==> r[i] == if i < |data| then data[i] else 0
  {
    if n <= |data| then data[..n] else data + Zeros(n - |data|)
  }

  /** What was stored as 16 bits is read back, wherever it stands. */
  lemma ReadBack16(pre: bytes, v: uint16, post: bytes)
    ensures ReadUint16(pre + U16(v) + post, |pre|) == v
  {
    var a := pre + U16(v) + post;
    assert At(a, |pre|) == v / 0x100 && At(a, |pre| + 1) == v % 0x100;
  }

  lemma BytesOfWord(v: uint32)
    ensures v == 0x100_0000 * (v / 0x100_0000) + 0x1_0000 * (v / 0x1_0000 % 0x100)
                 + 0x100 * (v / 0x100 % 0x100) + v % 0x100
  {
    assert v / 0x1_0000 == 0x100 * (v / 0x100_0000) + v / 0x1_0000 % 0x100;
    assert v / 0x100 == 0x100 * (v / 0x1_0000) + v / 0x100 % 0x100;
  }

  /** The same for 32 bits. */
  lemma ReadBack32(pre: bytes, v: uint32, post: bytes)
    ensures ReadUint32(pre + U32(v) + post, |pre|) == v
  {
    var b := pre + U32(v) + post;
    assert At(b, |pre|) == v / 0x100_0000 && At(b, |pre| + 1) == v / 0x1_0000 % 0x100;
    assert At(b, |pre| + 2) == v / 0x100 % 0x100 && At(b, |pre| + 3) == v % 0x100;
    BytesOfWord(v);
  }

  lemma DigitsOfWord(d0: byte, d1: byte, d2: byte, d3: byte, v: int)
    requires v == 0x100_0000 * (d0 as int) + 0x1_0000 * (d1 as int) + 0x100 * (d2 as int) + d3 as int
    ensures v / 0x100_0000 == d0 && v / 0x1_0000 % 0x100 == d1 && v / 0x100 % 0x100 == d2 && v % 0x100 == d3
  {
    assert v / 0x100 == 0x1_0000 * (d0 as int) + 0x100 * (d1 as int) + d2 as int;
    assert v / 0x1_0000 == 0x100 * (d0 as int) + d1 as int;
  }

  /** The other direction: storing what four bytes read as puts the same four bytes back. */
  lemma WriteBack(s: bytes)
    requires |s| == 4
    ensures U32(ReadUint32(s, 0)) == s
  {
    DigitsOfWord(s[0], s[1], s[2], s[3], ReadUint32(s, 0));
  }

  /** The buffer every packet type of the stack is laid out in. */
  class BinaryPayload {
    var data: bytes

    constructor (initial: bytes)
      ensures data == initial
    {
      data := initial;
    }

    method Write(b: byte, offset: nat)
      requires offset < |data|
      modifies this
      ensures data == Put(old(data), [b], offset)
    {
      data := data[offset := b];
    }

    method WriteUint16(value: uint16, offset: nat)
      requires offset + 2 <= |data|
      modifies this
      ensures data == Put(old(data), U16(value), offset)
    {
      Write(value / 0x100, offset);
      Write(value % 0x100, offset + 1);
    }

    method WriteUint32(value: uint32, offset: nat)
      requires offset + 4 <= |data|
      modifies this
      ensures data == Put(old(data), U32(value), offset)
    {
      Write(value / 0x100_0000, offset);
      Write(value / 0x1_0000 % 0x100, offset + 1);
      Write(value / 0x100 % 0x100, offset + 2);
      Write(value % 0x100, offset + 3);
    }

    method WriteVector(vec: bytes, offset: nat)
      requires offset + |vec| <= |data|
      modifies this
      ensures data == Put(old(data), vec, offset)
    {
      var idx := 0;
      while idx < |vec|
        invariant 0 <= idx <= |vec|
        invariant data == Put(old(data), vec[..idx], offset)
      {
        Write(vec[idx], offset + idx);
        idx := idx + 1;
      }
      assert vec[..idx] == vec;
    }

    method ResizeTo(n: nat)
      modifies this
      ensures data == Resize(old(data), n)
    {
      data := Resize(data, n);
    }
  }
}
