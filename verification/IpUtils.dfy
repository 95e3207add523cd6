/** The Internet checksum as the stack computes it: 16-bit words summed in a 32-bit accumulator, then folded once. */
module IpUtils {
  import opened Bytes

  /** Sum of the big-endian 16-bit words of an even number of bytes. */
  function WordSum(s: bytes): nat
    requires |s| % 2 == 0
  {
    if |s| == 0 then 0 else WordSum(s[..|s| - 2]) + ReadUint16(s, |s| - 2)
  }

  /** `(sum + (sum >> 16)) & 0xFFFF`. */
  function Fold(sum: nat): uint16 {
    (sum + sum / 0x1_0000) % 0x1_0000
  }

  /** Section 4.1 of RFC 1071: carries are added back in until none is left. */
  function EndAroundFold(sum: nat): uint16 {
    if sum < 0x1_0000 then sum else EndAroundFold(sum / 0x1_0000 + sum % 0x1_0000)
  }

  /** Adding the carries back in once gives rise to no second carry. */
  predicate NoSecondCarry(sum: nat) {
    sum / 0x1_0000 + sum % 0x1_0000 <= 0xFFFF
  }

  /** The guard of the loops. The comparison with the buffer's size is one of unsigned numbers,
      so a negative index does not pass it. */
  predicate InBounds(i: int, end: int, size: nat) {
    i < end && 0 <= i < size
  }

  /** How many words a loop from `begin` visits that stops at `end` or at the end of the buffer. */
  function Visited(data: bytes, begin: int, end: int): nat {
    var stop := if end < |data| then end else |data|;
    if 0 <= begin < stop then (stop - begin + 1) / 2 else 0
  }

  /** The first k words from `begin` on. */
  function Words(data: bytes, begin: int, k: nat): (r: bytes)
    requires k == 0 || (0 <= begin && begin + 2 * k <= |data|)
    ensures |r| == 2 * k
  {
    if k == 0 then [] else data[begin..begin + 2 * k]
  }

  /** The last word visited lies inside the buffer, whether or not it lies before `end`. */
  predicate Readable(data: bytes, begin: int, end: int) {
    Visited(data, begin, end) == 0 || begin + 2 * Visited(data, begin, end) <= |data|
  }

  /** The bytes that are visited. */
  function Range(data: bytes, begin: int, end: int): (r: bytes)
    requires Readable(data, begin, end)
    ensures |r| % 2 == 0
  {
    Words(data, begin, Visited(data, begin, end))
  }

  /** What a loop reads, case by case: nothing from outside, whole words inside, and one byte
      more than asked for when the range has an odd number of bytes. */
  lemma RangeExactly(data: bytes, begin: int, end: int)
    ensures begin < 0 || begin >= end || begin >= |data| ==>
              Readable(data, begin, end) && Range(data, begin, end) == []
    ensures 0 <= begin < end <= |data| && (end - begin) % 2 == 0 ==>
              Readable(data, begin, end) && Range(data, begin, end) == data[begin..end]
    ensures 0 <= begin < end <= |data| && (end - begin) % 2 == 1 ==>
              && (Readable(data, begin, end) <==> end < |data|)
              && (end < |data| ==> Range(data, begin, end) == data[begin..end + 1])
    ensures 0 <= begin < |data| < end ==>
              && (Readable(data, begin, end) <==> (|data| - begin) % 2 == 0)
              && ((|data| - begin) % 2 == 0 ==> Range(data, begin, end) == data[begin..])
  {
    if 0 <= begin < end && begin < |data| {
      var n := (if end < |data| then end else |data|) - begin;
      assert Visited(data, begin, end) == (n + 1) / 2;
      assert n == 2 * (n / 2) + n % 2;
    }
  }

  lemma GuardCountsWords(data: bytes, begin: int, end: int, k: nat)
    requires k == 0 || 0 <= begin
    ensures InBounds(begin + 2 * k, end, |data|) <==> k < Visited(data, begin, end)
  {
  }

  /** What the 32-bit accumulator holds after the words of `s`. */
  function Accumulated(s: bytes): uint32
    requires |s| % 2 == 0
  {
    WordSum(s) % 0x1_0000_0000
  }

  method CalculateChecksum(data: bytes, begin: int, end: int) returns (r: uint16)
    requires Readable(data, begin, end)
    ensures r == Fold(Accumulated(Range(data, begin, end)))
  {
    var sum: uint32 := 0;
    var i := begin;
    ghost var k := 0;
    GuardCountsWords(data, begin, end, k);
    while InBounds(i, end, |data|)
      decreases |data| - i
      invariant i == begin + 2 * k && k <= Visited(data, begin, end)
      invariant InBounds(i, end, |data|) <==> k < Visited(data, begin, end)
      invariant sum == Accumulated(Words(data, begin, k))
    {
      AccumulateWord(data, begin, k);
      sum := AddWord(sum, ReadUint16(data, i));
      i, k := i + 2, k + 1;
      GuardCountsWords(data, begin, end, k);
    }
    r := Fold(sum);
  }

  /** One addition in the 32-bit accumulator. */
  function AddWord(sum: uint32, w: uint16): uint32 {
    (sum + w) % 0x1_0000_0000
  }

  lemma AccumulateWord(data: bytes, begin: nat, k: nat)
    requires begin + 2 * k + 2 <= |data|
    ensures Accumulated(Words(data, begin, k + 1)) ==
            AddWord(Accumulated(Words(data, begin, k)), ReadUint16(data, begin + 2 * k))
    ensures Accumulated(Words(data, begin, k + 1)) ==
            (Accumulated(Words(data, begin, k)) + 0x100 * At(data, begin + 2 * k) + At(data, begin + 2 * k + 1))
            % 0x1_0000_0000
  {
    NextWord(data, begin, k);
    Wrap(WordSum(Words(data, begin, k)), ReadUint16(data, begin + 2 * k));
  }

  lemma NextWord(data: bytes, begin: nat, k: nat)
    requires begin + 2 * k + 2 <= |data|
    ensures WordSum(Words(data, begin, k + 1)) == WordSum(Words(data, begin, k)) + ReadUint16(data, begin + 2 * k)
  {
    var i := begin + 2 * k;
    WordBytes(data, i);
    assert Words(data, begin, k + 1) == Words(data, begin, k) + data[i..i + 2];
    AppendWord(Words(data, begin, k), ReadUint16(data, i));
  }

  lemma WordBytes(data: bytes, i: nat)
    requires i + 2 <= |data|
    ensures U16(ReadUint16(data, i)) == data[i..i + 2]
  {
    var h, l := At(data, i), At(data, i + 1);
    assert (0x100 * h + l) / 0x100 == h && (0x100 * h + l) % 0x100 == l;
  }

  /** The accumulator may be cut to 32 bits at every step or once at the end. */
  lemma Wrap(x: nat, y: nat)
    ensures (x % 0x1_0000_0000 + y) % 0x1_0000_0000 == (x + y) % 0x1_0000_0000
  {
  }

  /** Up to 128 KiB the accumulator does not overflow. */
  lemma NoOverflow(s: bytes)
    requires |s| % 2 == 0 && |s| <= 0x2_0000
    ensures Accumulated(s) == WordSum(s) < 0xFFFF_FFFF
  {
    WordSumBound(s);
  }

  /** Over an even number of bytes at the front, the words visited are those bytes. */
  lemma FrontRange(data: bytes, n: nat)
    requires n % 2 == 0 && n <= |data|
    ensures Readable(data, 0, n) && Range(data, 0, n) == data[..n]
  {
  }

  /** The checksum of an even number of bytes at the front of a buffer of ordinary size. */
  method FoldedFront(data: bytes, n: nat) returns (r: uint16)
    requires n % 2 == 0 && n <= |data| && n <= 0x2_0000
    ensures r == Fold(WordSum(data[..n]))
  {
    FrontRange(data, n);
    NoOverflow(data[..n]);
    r := CalculateChecksum(data, 0, n);
  }

  /** The checksum of a whole buffer of ordinary size. */
  method FoldedSum(data: bytes) returns (r: uint16)
    requires |data| % 2 == 0 && |data| <= 0x2_0000
    ensures r == Fold(WordSum(data))
  {
    assert data[..|data|] == data;
    r := FoldedFront(data, |data|);
  }

  /** Sum of a list of 16-bit values, the second kind of input the checksum is taken of. */
  function Sum16(s: seq<uint16>): nat {
    if |s| == 0 then 0 else Sum16(s[..|s| - 1]) + s[|s| - 1]
  }

  function Range16(data: seq<uint16>, begin: int, end: int): seq<uint16> {
    var stop := if end < |data| then end else |data|;
    if 0 <= begin < stop then data[begin..stop] else []
  }

  lemma Range16Exactly(data: seq<uint16>, begin: int, end: int)
    ensures begin < 0 || begin >= end || begin >= |data| ==> Range16(data, begin, end) == []
    ensures 0 <= begin < end <= |data| ==> Range16(data, begin, end) == data[begin..end]
    ensures 0 <= begin < |data| < end ==> Range16(data, begin, end) == data[begin..]
  {
  }

  function Accumulated16(s: seq<uint16>): uint32 {
    Sum16(s) % 0x1_0000_0000
  }

  method CalculateChecksumUint16(data: seq<uint16>, begin: int, end: int) returns (r: uint16)
    ensures r == Fold(Accumulated16(Range16(data, begin, end)))
  {
    var sum: uint32 := 0;
    var i := begin;
    while InBounds(i, end, |data|)
      decreases |data| - i
      invariant i == begin || (0 <= begin < i && i <= end && i <= |data|)
      invariant sum == Accumulated16(Range16(data, begin, i))
    {
      AccumulateValue(data, begin, i);
      sum := AddWord(sum, data[i]);
      i := i + 1;
    }
    RangeEnds(data, begin, end, i);
    r := Fold(sum);
  }

  lemma RangeEnds(data: seq<uint16>, begin: int, end: int, i: int)
    requires i == begin || (0 <= begin < i && i <= end && i <= |data|)
    requires !InBounds(i, end, |data|)
    ensures Range16(data, begin, i) == Range16(data, begin, end)
  {
  }

  lemma AccumulateValue(data: seq<uint16>, begin: nat, i: nat)
    requires begin <= i < |data|
    ensures Accumulated16(Range16(data, begin, i + 1)) == AddWord(Accumulated16(Range16(data, begin, i)), data[i])
  {
    NextValue(data, begin, i);
    Wrap(Sum16(Range16(data, begin, i)), data[i]);
  }

  lemma NextValue(data: seq<uint16>, begin: nat, i: nat)
    requires begin <= i < |data|
    ensures Sum16(Range16(data, begin, i + 1)) == Sum16(Range16(data, begin, i)) + data[i]
  {
    var after := Range16(data, begin, i + 1);
    assert after[..|after| - 1] == Range16(data, begin, i);
  }

  /** Accepts exactly the ranges that RFC 1071 accepts: the fully folded sum is all ones. */
  method VerifyChecksum(data: bytes, begin: int, end: int) returns (ok: bool)
    requires Readable(data, begin, end)
    requires |Range(data, begin, end)| <= 0x2_0000
    ensures ok == Verifies(Range(data, begin, end))
    ensures ok <==> EndAroundFold(WordSum(Range(data, begin, end))) == 0xFFFF
  {
    var c := CalculateChecksum(data, begin, end);
    ok := c == 0xFFFF;
    NoOverflow(Range(data, begin, end));
    SingleFoldIsRfc1071(Range(data, begin, end));
  }

  predicate Verifies(s: bytes)
    requires |s| % 2 == 0
  {
    Fold(WordSum(s)) == 0xFFFF
  }

  // ---------------------------------------------------------------- sums

  lemma {:induction false} WordSumBound(s: bytes)
    requires |s| % 2 == 0
    ensures WordSum(s) <= 0xFFFF * (|s| / 2)
  {
    if |s| > 0 {
      WordSumBound(s[..|s| - 2]);
    }
  }

  lemma {:induction false} WordSumAppend(a: bytes, b: bytes)
    requires |a| % 2 == 0 && |b| % 2 == 0
    ensures WordSum(a + b) == WordSum(a) + WordSum(b)
  {
    if b == [] {
      assert a + b == a;
    } else {
      WordSumAppend(a, b[..|b| - 2]);
      assert (a + b)[..|a + b| - 2] == a + b[..|b| - 2];
      assert ReadUint16(a + b, |a + b| - 2) == ReadUint16(b, |b| - 2);
    }
  }

  lemma OneWord(v: uint16)
    ensures WordSum(U16(v)) == v
  {
    assert U16(v)[..0] == [];
  }

  lemma AppendWord(a: bytes, v: uint16)
    requires |a| % 2 == 0
    ensures |a + U16(v)| % 2 == 0 && WordSum(a + U16(v)) == WordSum(a) + v
  {
    WordSumAppend(a, U16(v));
    OneWord(v);
  }

  lemma HalvesOfWord(v: uint32)
    ensures U32(v) == U16(v / 0x1_0000) + U16(v % 0x1_0000)
  {
    var h: int, l: int := v / 0x1_0000, v % 0x1_0000;
    assert v / 0x100 == h * 0x100 + l / 0x100;
    assert v / 0x100_0000 == h / 0x100;
    assert v % 0x100 == l % 0x100;
  }

  lemma TwoWords(v: uint32)
    ensures WordSum(U32(v)) == v / 0x1_0000 + v % 0x1_0000
  {
    WordSumAppend(U16(v / 0x1_0000), U16(v % 0x1_0000));
    OneWord(v / 0x1_0000);
    OneWord(v % 0x1_0000);
    HalvesOfWord(v);
  }

  lemma AppendTwo(a: bytes, v: uint32)
    requires |a| % 2 == 0
    ensures |a + U32(v)| % 2 == 0 && WordSum(a + U32(v)) == WordSum(a) + v / 0x1_0000 + v % 0x1_0000
  {
    WordSumAppend(a, U32(v));
    TwoWords(v);
  }

  /** Overwriting one aligned word moves the sum by the difference of the words. */
  lemma {:induction false} WordSumPut(s: bytes, v: uint16, offset: nat)
    requires |s| % 2 == 0 && offset % 2 == 0 && offset + 2 <= |s|
    ensures WordSum(Put(s, U16(v), offset)) == WordSum(s) - ReadUint16(s, offset) + v
  {
    var n := |s| - 2;
    LastWordOfPut(s, v, offset);
    if offset < n {
      WordSumPut(s[..n], v, offset);
    }
  }

  lemma LastWordOfPut(s: bytes, v: uint16, offset: nat)
    requires |s| % 2 == 0 && offset % 2 == 0 && offset + 2 <= |s|
    ensures var p, n := Put(s, U16(v), offset), |s| - 2;
            if offset == n then p[..n] == s[..n] && ReadUint16(p, n) == v
            else p[..n] == Put(s[..n], U16(v), offset) && ReadUint16(p, n) == ReadUint16(s, n)
  {
    var p, n := Put(s, U16(v), offset), |s| - 2;
    assert At(p, n) == if offset == n then v / 0x100 else At(s, n);
    assert At(p, n + 1) == if offset == n then v % 0x100 else At(s, n + 1);
  }

  // ---------------------------------------------------------------- verifying

  lemma {:induction false} EndAroundFoldResidue(sum: nat)
    ensures EndAroundFold(sum) == if sum == 0 then 0 else if sum % 0xFFFF == 0 then 0xFFFF else sum % 0xFFFF
    decreases sum
  {
    if sum >= 0x1_0000 {
      EndAroundFoldResidue(sum / 0x1_0000 + sum % 0x1_0000);
      HalvesResidue(sum);
    }
  }

  /** 2^16 is 1 modulo 2^16 - 1. */
  lemma HalvesResidue(sum: nat)
    ensures (sum / 0x1_0000 + sum % 0x1_0000) % 0xFFFF == sum % 0xFFFF
  {
    var h, l := sum / 0x1_0000, sum % 0x1_0000;
    assert sum == 0xFFFF * h + (h + l);
  }

  /** One fold tells the multiples of 0xFFFF apart for every sum below 2^32 - 1. */
  lemma SingleFoldExact(sum: nat)
    requires sum < 0xFFFF_FFFF
    ensures Fold(sum) == 0xFFFF <==> sum > 0 && sum % 0xFFFF == 0
  {
    var h, l := sum / 0x1_0000, sum % 0x1_0000;
    HalvesResidue(sum);
    assert Fold(sum) == (h + l) % 0x1_0000;
    assert h + l < 0x1_FFFE;
  }

  /** ... and fails to for the very next sum, so the bound is sharp. */
  lemma SingleFoldBoundIsSharp()
    ensures 0xFFFF_FFFF % 0xFFFF == 0 && Fold(0xFFFF_FFFF) != 0xFFFF
    ensures EndAroundFold(0xFFFF_FFFF) == 0xFFFF
  {
    EndAroundFoldResidue(0xFFFF_FFFF);
  }

  lemma SingleFoldIsRfc1071(s: bytes)
    requires |s| % 2 == 0 && |s| <= 0x2_0000
    ensures WordSum(s) < 0xFFFF_FFFF
    ensures Verifies(s) <==> WordSum(s) > 0 && WordSum(s) % 0xFFFF == 0
    ensures Verifies(s) <==> EndAroundFold(WordSum(s)) == 0xFFFF
  {
    WordSumBound(s);
    SingleFoldExact(WordSum(s));
    EndAroundFoldResidue(WordSum(s));
  }

  /** Replacing one aligned word of an accepted range goes unnoticed only between
      0x0000 and 0xFFFF, and then only if some other word is not zero. */
  lemma SingleWordError(s: bytes, offset: nat, w: uint16)
    requires |s| % 2 == 0 && |s| <= 0x2_0000 && offset % 2 == 0 && offset + 2 <= |s|
    requires Verifies(s) && ReadUint16(s, offset) != w
    ensures Verifies(Put(s, U16(w), offset)) <==>
            AllZerosAndAllOnes(ReadUint16(s, offset), w) && WordSum(Put(s, U16(w), offset)) > 0
  {
    WordSumPut(s, w, offset);
    SingleFoldIsRfc1071(s);
    SingleFoldIsRfc1071(Put(s, U16(w), offset));
    SameResidue(WordSum(s), ReadUint16(s, offset), w);
  }

  predicate AllZerosAndAllOnes(v: uint16, w: uint16) {
    (v == 0 && w == 0xFFFF) || (v == 0xFFFF && w == 0)
  }

  lemma SameResidue(sum: nat, v: uint16, w: uint16)
    requires sum % 0xFFFF == 0 && v != w
    ensures (sum - v + w) % 0xFFFF == 0 <==> AllZerosAndAllOnes(v, w)
  {
    var d: int := w - v;
    assert (sum + d) % 0xFFFF == d % 0xFFFF;
    assert d % 0xFFFF == 0 <==> d == 0xFFFF || d == -0xFFFF;
  }

  // ---------------------------------------------------------------- generating

  /** A single checksum field filled with the complement of the folded zero-field sum
      is accepted if and only if that sum has no second carry. */
  lemma GeneratedAccepted(zeroSum: nat)
    requires zeroSum < 0x1_0000_0000
    ensures Fold(zeroSum + (0xFFFF - Fold(zeroSum))) == 0xFFFF <==> NoSecondCarry(zeroSum)
  {
    var h, l := zeroSum / 0x1_0000, zeroSum % 0x1_0000;
    var c := 0xFFFF - Fold(zeroSum);
    assert Fold(zeroSum) == (h + l) % 0x1_0000;
    if h + l <= 0xFFFF {
      FoldParts(h, l + c);
    } else {
      assert l + c == 0x1_FFFF - h;
      FoldParts(h + 1, l + c - 0x1_0000);
    }
  }

  lemma FoldParts(h: nat, l: nat)
    requires l <= 0xFFFF
    ensures Fold(0x1_0000 * h + l) == (h + l) % 0x1_0000
  {
    assert (0x1_0000 * h + l) / 0x1_0000 == h;
  }

  /** When there is no second carry, the generated field is the RFC 1071 checksum. */
  lemma GeneratedIsRfc1071(zeroSum: nat)
    requires zeroSum < 0x1_0000_0000
    ensures Fold(zeroSum) == EndAroundFold(zeroSum) <==> NoSecondCarry(zeroSum)
  {
    var h, l := zeroSum / 0x1_0000, zeroSum % 0x1_0000;
    FoldParts(h, l);
    FoldOnce(zeroSum);
    if h + l > 0xFFFF {
      FoldOnce(h + l);
      assert (h + l) / 0x1_0000 == 1 && (h + l) % 0x1_0000 == h + l - 0x1_0000;
      FoldOnce(h + l - 0xFFFF);
    } else {
      FoldOnce(h + l);
    }
  }

  lemma FoldOnce(sum: nat)
    ensures EndAroundFold(sum) == if sum < 0x1_0000 then sum else EndAroundFold(sum / 0x1_0000 + sum % 0x1_0000)
  {
  }
}
