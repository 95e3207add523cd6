/** Dotted-quad text: printing a 32-bit address, and parsing one by splitting at the dots. */
module AddressText {
  import opened Wrappers
  import opened Bytes

  // ---------------------------------------------------------------- decimal numbers

  predicate IsDigit(c: char) {
    '0' <= c <= '9'
  }

  predicate AllDigits(w: string) {
    forall i :: 0 <= i < |w| ==> IsDigit(w[i])
  }

  function Digit(n: nat): (c: char)
    requires n < 10
    ensures IsDigit(c) && c as int - '0' as int == n
  {
    '0' + n as char
  }

  /** Decimal text of a number. */
  function Decimal(n: nat): (w: string)
    ensures |w| > 0 && AllDigits(w)
  {
    if n < 10 then [Digit(n)] else Decimal(n / 10) + [Digit(n % 10)]
  }

  function Value(w: string): nat
    requires AllDigits(w)
  {
    if w == "" then 0 else 10 * Value(w[..|w| - 1]) + (w[|w| - 1] as int - '0' as int)
  }

  function DigitPrefix(w: string): (p: string)
    ensures AllDigits(p)
    ensures AllDigits(w) ==> p == w
  {
    if w == "" || !IsDigit(w[0]) then "" else [w[0]] + DigitPrefix(w[1..])
  }

  /** `from_chars` in base 10 into a 32-bit value: the leading digits, if there are any and they fit. */
  function ParseNumber(w: string): Option<uint32> {
    var p := DigitPrefix(w);
    if p != "" && Value(p) < 0x1_0000_0000 then Some(Value(p)) else None
  }

  lemma {:induction false} ValueOfDecimal(n: nat)
    ensures Value(Decimal(n)) == n
  {
    var w := Decimal(n);
    if n >= 10 {
      ValueOfDecimal(n / 10);
      assert w[..|w| - 1] == Decimal(n / 10);
    } else {
      assert w[..0] == "";
    }
  }

  /** A numeral without superfluous zeros is what its value prints as. */
  lemma {:induction false} DecimalOfValue(w: string)
    requires AllDigits(w) && |w| > 0 && (|w| > 1 ==> w[0] != '0')
    ensures Decimal(Value(w)) == w
    ensures |w| > 1 ==> Value(w) >= 10
  {
    var p := w[..|w| - 1];
    if |w| == 1 {
      assert Value(p) == 0;
    } else {
      DecimalOfValue(p);
      if |p| == 1 {
        assert p[..0] == "";
        assert Value(p) >= 1;
      }
      assert Value(w) / 10 == Value(p);
    }
  }

  /** Numerals have no superfluous zero, and the octets' ones have at most three digits. */
  lemma {:induction false} DecimalIsShortest(n: nat)
    ensures |Decimal(n)| > 1 ==> Decimal(n)[0] != '0'
    ensures n > 0 ==> Decimal(n)[0] != '0'
    ensures n < 1000 ==> |Decimal(n)| <= 3
  {
    if n >= 10 {
      DecimalIsShortest(n / 10);
      if n < 1000 && n / 10 >= 10 {
        assert n / 10 / 10 < 10;
      }
    }
  }

  // ---------------------------------------------------------------- splitting

  /** The pieces between the dots of a string. */
  function Words(s: string): (r: seq<string>)
    ensures |r| > 0
  {
    if s == "" then [""]
    else
      var rest := Words(s[1..]);
      if s[0] == '.' then [""] + rest else [[s[0]] + rest[0]] + rest[1..]
  }

  /** `views::split('.')`: the empty string has no pieces at all. */
  function Split(s: string): seq<string> {
    if s == "" then [] else Words(s)
  }

  function Join(words: seq<string>): string
    requires |words| > 0
  {
    if |words| == 1 then words[0] else words[0] + "." + Join(words[1..])
  }

  lemma {:induction false} JoinWords(s: string)
    ensures Join(Words(s)) == s
  {
    if s != "" {
      JoinWords(s[1..]);
      var rest := Words(s[1..]);
      if s[0] == '.' {
        assert Words(s)[1..] == rest;
        assert "" + "." + s[1..] == s;
      } else {
        var first := [s[0]] + rest[0];
        assert Words(s)[1..] == rest[1..];
        assert Join(Words(s)) == [s[0]] + Join(rest);
      }
    }
  }

  lemma {:induction false} WordsOfPrefix(u: string, s: string)
    requires AllDigits(u)
    ensures Words(u + "." + s) == [u] + Words(s)
    ensures Words(u) == [u]
  {
    var t := u + "." + s;
    if u == "" {
      assert t[1..] == s;
    } else {
      WordsOfPrefix(u[1..], s);
      assert t[1..] == u[1..] + "." + s;
      assert [u[0]] + u[1..] == u;
    }
  }

  // ---------------------------------------------------------------- printing

  function Octet(a: uint32, i: nat): (r: uint32)
    requires i < 4
    ensures r < 0x100
  {
    U32(a)[i]
  }

  /** `Uint32ToIpv4str`. */
  function Print(a: uint32): string {
    Decimal(Octet(a, 0)) + "." + (Decimal(Octet(a, 1)) + "." + (Decimal(Octet(a, 2)) + "." + Decimal(Octet(a, 3))))
  }

  function PrintedWords(a: uint32): seq<string> {
    [Decimal(Octet(a, 0)), Decimal(Octet(a, 1)), Decimal(Octet(a, 2)), Decimal(Octet(a, 3))]
  }

  lemma SplitPrint(a: uint32)
    ensures Split(Print(a)) == PrintedWords(a)
  {
    var w0, w1, w2, w3 := Decimal(Octet(a, 0)), Decimal(Octet(a, 1)), Decimal(Octet(a, 2)), Decimal(Octet(a, 3));
    WordsOfPrefix(w3, "");
    WordsOfPrefix(w2, w3);
    WordsOfPrefix(w1, w2 + "." + w3);
    WordsOfPrefix(w0, w1 + "." + (w2 + "." + w3));
  }

  // ---------------------------------------------------------------- parsing

  /** `ret << 8 | value` on 32 bits. */
  function ShiftIn(ret: uint32, value: uint32): nat {
    BitOr(ret * 0x100 % 0x1_0000_0000, value)
  }

  lemma {:induction false} BitOrBelow(a: nat, b: nat, k: nat)
    requires a < Pow2(k) && b < Pow2(k)
    ensures BitOr(a, b) < Pow2(k)
    decreases k
  {
    if k > 0 && a > 0 && b > 0 {
      BitOrBelow(a / 2, b / 2, k - 1);
    }
  }

  lemma ShiftInIs32Bit(ret: uint32, value: uint32)
    ensures ShiftIn(ret, value) < 0x1_0000_0000
  {
    assert Pow2(8) == 0x100;
    assert Pow2(16) == 0x1_0000;
    assert Pow2(24) == 0x100_0000;
    assert Pow2(32) == 0x1_0000_0000;
    BitOrBelow(ret * 0x100 % 0x1_0000_0000, value, 32);
  }

  /** What the loop has accumulated after `words`. */
  function Accumulated(words: seq<string>): Result<uint32> {
    if words == [] then Ok(0)
    else
      var last := |words| - 1;
      match Accumulated(words[..last])
      case Err(e) => Err(e)
      case Ok(ret) =>
        match ParseNumber(words[last])
        case None => Err(InvalidAddressText)
        case Some(value) =>
          if last >= 4 then Err(InvalidAddressText)
          else
            ShiftInIs32Bit(ret, value);
            Ok(ShiftIn(ret, value))
  }

  function Parse(s: string): Result<uint32> {
    Accumulated(Split(s))
  }

  lemma {:induction false} ErrorsStay(words: seq<string>, n: nat)
    requires n <= |words| && Accumulated(words[..n]).Err?
    ensures Accumulated(words) == Accumulated(words[..n])
    decreases |words| - n
  {
    if n == |words| {
      assert words[..n] == words;
    } else {
      assert words[..n + 1][..n] == words[..n];
      ErrorsStay(words, n + 1);
    }
  }

  method Ipv4strToUint32(str: string) returns (r: Result<uint32>)
    ensures r == Parse(str)
  {
    var ret: uint32 := 0;
    var idx := 0;
    var words := Split(str);
    while idx < |words|
      invariant 0 <= idx <= |words|
      invariant Accumulated(words[..idx]) == Ok(ret)
    {
      assert words[..idx + 1][..idx] == words[..idx];
      var value := ParseNumber(words[idx]);
      if value.None? || idx >= 4 {
        ErrorsStay(words, idx + 1);
        return Err(InvalidAddressText);
      }
      ShiftInIs32Bit(ret, value.value);
      ret := ShiftIn(ret, value.value);
      idx := idx + 1;
    }
    assert words[..idx] == words;
    r := Ok(ret);
  }

  // ---------------------------------------------------------------- what is parsed, exactly

  /** A piece is a number if it starts with a digit and its leading digits stay below 2^32. */
  predicate Numeral(w: string) {
    |w| > 0 && '0' <= w[0] <= '9' && Value(DigitPrefix(w)) <= 0xFFFF_FFFF
  }

  /** Text is refused exactly when one of its pieces is not a number, or there are more than four. */
  lemma {:induction false} ParsesExactly(words: seq<string>)
    ensures Accumulated(words).Ok? <==> |words| <= 4 && forall i :: 0 <= i < |words| ==> Numeral(words[i])
    ensures Accumulated(words).Err? ==> Accumulated(words).error == InvalidAddressText
  {
    if words != [] {
      var last := |words| - 1;
      ParsesExactly(words[..last]);
      assert ParseNumber(words[last]).Some? <==> Numeral(words[last]);
      assert forall i :: 0 <= i < last ==> words[..last][i] == words[i];
    }
  }

  /** The leading digits end where the digits end. */
  lemma {:induction false} PrefixIsLongest(w: string)
    ensures DigitPrefix(w) <= w
    ensures forall i :: 0 <= i < |DigitPrefix(w)| ==> '0' <= w[i] <= '9'
    ensures |DigitPrefix(w)| == |w| || !('0' <= w[|DigitPrefix(w)|] <= '9')
  {
    if w != "" && IsDigit(w[0]) {
      PrefixIsLongest(w[1..]);
    }
  }

  /** The pieces of a text are what stands between its dots. */
  lemma {:induction false} WordsExactly(s: string)
    ensures Join(Words(s)) == s && forall i :: 0 <= i < |Words(s)| ==> '.' !in Words(s)[i]
  {
    JoinWords(s);
    if s != "" {
      WordsExactly(s[1..]);
    }
  }

  /** Binary digit k of a number. */
  predicate Bit(n: nat, k: nat) {
    if k == 0 then n % 2 == 1 else Bit(n / 2, k - 1)
  }

  lemma {:induction false} NoBits(k: nat)
    ensures !Bit(0, k)
  {
    if k > 0 {
      NoBits(k - 1);
    }
  }

  lemma BitOrHalf(a: nat, b: nat)
    requires a > 0 && b > 0
    ensures BitOr(a, b) / 2 == BitOr(a / 2, b / 2)
    ensures BitOr(a, b) % 2 == 1 <==> a % 2 == 1 || b % 2 == 1
  {
  }

  /** The or of two numbers has the digits of both. */
  lemma {:induction false} BitOrBits(a: nat, b: nat, k: nat)
    ensures Bit(BitOr(a, b), k) <==> Bit(a, k) || Bit(b, k)
    decreases k
  {
    if a == 0 || b == 0 {
      NoBits(k);
    } else {
      BitOrHalf(a, b);
      if k > 0 {
        BitOrBits(a / 2, b / 2, k - 1);
      }
    }
  }

  /** Shifting left moves every digit up. */
  lemma {:induction false} ShiftedBits(n: nat, i: nat, k: nat)
    ensures Bit(n * Pow2(i), k) <==> k >= i && Bit(n, k - i)
    decreases i
  {
    if i == 0 {
      assert Pow2(0) == 1;
    } else {
      var m := n * Pow2(i - 1);
      assert n * Pow2(i) == 2 * m;
      if k > 0 {
        ShiftedBits(n, i - 1, k - 1);
      }
    }
  }

  /** Cutting off at 2^i removes the digits from i on. */
  lemma {:induction false} CutBits(n: nat, i: nat, k: nat)
    ensures Bit(n % Pow2(i), k) <==> k < i && Bit(n, k)
    decreases i
  {
    if i == 0 {
      assert Pow2(0) == 1;
      NoBits(k);
    } else {
      CutHalf(n, Pow2(i - 1));
      if k > 0 {
        CutBits(n / 2, i - 1, k - 1);
      }
    }
  }

  lemma CutHalf(n: nat, m: nat)
    requires m > 0
    ensures n % (2 * m) / 2 == n / 2 % m && n % (2 * m) % 2 == n % 2
  {
    var q, x := n / 2 / m, n / 2 % m;
    assert n / 2 == m * q + x;
    RemainderIs(n, 2 * m, q, 2 * x + n % 2);
  }

  lemma RemainderIs(n: nat, d: nat, p: nat, x: nat)
    requires n == d * p + x && x < d
    ensures n % d == x
  {
    StrictlyMore(d, n / d, p);
    StrictlyMore(d, p, n / d);
  }

  lemma StrictlyMore(d: nat, a: nat, b: nat)
    ensures a < b ==> d * a + d <= d * b
  {
    if a < b {
      assert d * b == d * a + d + d * (b - a - 1);
    }
  }

  /** Some piece, shifted left by eight for every piece after it, has the digit. */
  ghost predicate SomeBit(words: seq<string>, k: nat) {
    exists i :: 0 <= i < |words| && BitOfPiece(words, i, k)
  }

  predicate BitOfPiece(words: seq<string>, i: nat, k: nat)
    requires i < |words|
  {
    var shift := 8 * (|words| - 1 - i);
    ParseNumber(words[i]).Some? && k >= shift && Bit(ParseNumber(words[i]).value, k - shift)
  }

  lemma ShiftInBits(ret: uint32, value: uint32, k: nat)
    requires k < 32
    ensures Bit(ShiftIn(ret, value), k) <==> (k >= 8 && Bit(ret, k - 8)) || Bit(value, k)
  {
    assert Pow2(8) == 0x100;
    assert Pow2(16) == 0x1_0000;
    assert Pow2(24) == 0x100_0000;
    assert Pow2(32) == 0x1_0000_0000;
    BitOrBits(ret * 0x100 % 0x1_0000_0000, value, k);
    CutBits(ret * 0x100, 32, k);
    ShiftedBits(ret, 8, k);
  }

  lemma ShiftedPiece(words: seq<string>, i: nat, k: nat)
    requires i < |words| - 1
    ensures BitOfPiece(words, i, k) <==> k >= 8 && BitOfPiece(words[..|words| - 1], i, k - 8)
  {
  }

  lemma LastPiece(words: seq<string>, k: nat)
    requires words != []
    ensures var last := |words| - 1;
            SomeBit(words, k) <==> BitOfPiece(words, last, k) || (k >= 8 && SomeBit(words[..last], k - 8))
  {
    var last := |words| - 1;
    var before := words[..last];
    forall i: nat | i < last
      ensures BitOfPiece(words, i, k) <==> k >= 8 && BitOfPiece(before, i, k - 8)
    {
      ShiftedPiece(words, i, k);
    }
    if k >= 8 && SomeBit(before, k - 8) {
      var i :| 0 <= i < |before| && BitOfPiece(before, i, k - 8);
      assert BitOfPiece(words, i, k);
    }
  }

  /** The value of a text, digit by digit, octets of any size included: the or of all pieces,
      each shifted to its place, cut to 32 bits. */
  lemma {:induction false} ParsedBits(words: seq<string>, k: nat)
    requires Accumulated(words).Ok? && k < 32
    ensures Bit(Accumulated(words).value, k) <==> SomeBit(words, k)
  {
    if words == [] {
      NoBits(k);
    } else {
      var last := |words| - 1;
      ShiftInBits(Accumulated(words[..last]).value, ParseNumber(words[last]).value, k);
      LastPiece(words, k);
      if k >= 8 {
        ParsedBits(words[..last], k - 8);
      }
    }
  }

  /** Parsing, exactly. The empty text is 0. Any other is refused if and only if it has more than
      four pieces between its dots or one that is no number, and else is the or of its pieces in
      their places. */
  lemma TextExactly(s: string)
    ensures s == "" ==> Parse(s) == Ok(0)
    ensures s != "" ==>
              (Parse(s).Ok? <==> |Words(s)| <= 4 && forall i :: 0 <= i < |Words(s)| ==> Numeral(Words(s)[i]))
    ensures Parse(s).Err? ==> Parse(s).error == InvalidAddressText
    ensures s != "" && Parse(s).Ok? ==> forall k :: 0 <= k < 32 ==> (Bit(Parse(s).value, k) <==> SomeBit(Words(s), k))
  {
    ParsesExactly(Split(s));
    if s != "" && Parse(s).Ok? {
      forall k | 0 <= k < 32
        ensures Bit(Parse(s).value, k) <==> SomeBit(Words(s), k)
      {
        ParsedBits(Words(s), k);
      }
    }
  }

  // ---------------------------------------------------------------- round trips

  lemma ShiftInOctet(ret: uint32, d: uint32)
    requires d < 0x100 && ret < 0x100_0000
    ensures ShiftIn(ret, d) == ret * 0x100 + d
  {
    ByteShiftOr(ret, d);
  }

  lemma OneMore(words: seq<string>, n: nat, ret: uint32, d: uint32)
    requires n < |words| && n < 4 && d < 0x100 && ret < 0x100_0000
    requires Accumulated(words[..n]) == Ok(ret) && ParseNumber(words[n]) == Some(d)
    ensures Accumulated(words[..n + 1]) == Ok(ret * 0x100 + d)
  {
    var w := words[..n + 1];
    assert w[..|w| - 1] == words[..n] && w[|w| - 1] == words[n];
    ShiftInOctet(ret, d);
  }

  /** Four numbers below 256 are packed big-endian. */
  lemma FourNumbers(words: seq<string>, d0: uint32, d1: uint32, d2: uint32, d3: uint32)
    requires |words| == 4 && d0 < 0x100 && d1 < 0x100 && d2 < 0x100 && d3 < 0x100
    requires ParseNumber(words[0]) == Some(d0) && ParseNumber(words[1]) == Some(d1)
    requires ParseNumber(words[2]) == Some(d2) && ParseNumber(words[3]) == Some(d3)
    ensures Accumulated(words) == Ok(((d0 * 0x100 + d1) * 0x100 + d2) * 0x100 + d3)
  {
    TwoNumbers(words, d0, d1);
    TwoMore(words, d0 * 0x100 + d1, d2, d3);
  }

  lemma TwoNumbers(words: seq<string>, d0: uint32, d1: uint32)
    requires |words| == 4 && d0 < 0x100 && d1 < 0x100
    requires ParseNumber(words[0]) == Some(d0) && ParseNumber(words[1]) == Some(d1)
    ensures Accumulated(words[..2]) == Ok(d0 * 0x100 + d1)
  {
    Start(words);
    OneMore(words, 0, 0, d0);
    OneMore(words, 1, d0, d1);
  }

  lemma TwoMore(words: seq<string>, ret: uint32, d2: uint32, d3: uint32)
    requires |words| == 4 && d2 < 0x100 && d3 < 0x100 && ret < 0x1_0000 && Accumulated(words[..2]) == Ok(ret)
    requires ParseNumber(words[2]) == Some(d2) && ParseNumber(words[3]) == Some(d3)
    ensures Accumulated(words) == Ok((ret * 0x100 + d2) * 0x100 + d3)
  {
    OneMore(words, 2, ret, d2);
    OneMore(words, 3, ret * 0x100 + d2, d3);
    assert words[..4] == words;
  }

  lemma FourWords(words: seq<string>, b: bytes)
    requires |words| == |b| == 4
    requires forall i :: 0 <= i < 4 ==> ParseNumber(words[i]) == Some(At(b, i))
    ensures Accumulated(words) == Ok(ReadUint32(b, 0))
  {
    var d0, d1, d2, d3 := At(b, 0), At(b, 1), At(b, 2), At(b, 3);
    FourNumbers(words, d0, d1, d2, d3);
    assert ((d0 * 0x100 + d1) * 0x100 + d2) * 0x100 + d3 == ReadUint32(b, 0);
  }

  lemma Start(words: seq<string>)
    ensures Accumulated(words[..0]) == Ok(0)
  {
  }

  /** Every 32-bit address survives printing and parsing. */
  lemma ParsePrint(a: uint32)
    ensures Parse(Print(a)) == Ok(a)
  {
    SplitPrint(a);
    forall i | 0 <= i < 4
      ensures ParseNumber(PrintedWords(a)[i]) == Some(At(U32(a), i))
    {
      ValueOfDecimal(Octet(a, i));
    }
    FourWords(PrintedWords(a), U32(a));
    ReadBack32([], a, []);
    assert [] + U32(a) + [] == U32(a);
  }

  lemma SmallDecimals()
    ensures Decimal(192) == "192" && Decimal(0) == "0" && Decimal(2) == "2" && Decimal(7) == "7"
  {
    assert Decimal(19) == "19";
  }

  lemma FourOctets(a: uint32, d0: byte, d1: byte, d2: byte, d3: byte)
    requires a as int == 0x100_0000 * (d0 as int) + 0x1_0000 * (d1 as int) + 0x100 * (d2 as int) + d3 as int
    ensures Octet(a, 0) == d0 && Octet(a, 1) == d1 && Octet(a, 2) == d2 && Octet(a, 3) == d3
  {
    DigitsOfWord(d0, d1, d2, d3, a);
  }

  /** One address in both forms. */
  lemma OneAddress(a: uint32)
    requires a == 0xC000_0207
    ensures Print(a) == "192.0.2.7" && Parse("192.0.2.7") == Ok(a)
  {
    FourOctets(a, 192, 0, 2, 7);
    SmallDecimals();
    assert Print(a) == "192" + "." + ("0" + "." + ("2" + "." + "7"));
    ParsePrint(a);
  }

  predicate CanonicalOctet(w: string) {
    && 1 <= |w| <= 3 && AllDigits(w)
    && (|w| > 1 ==> w[0] != '0')
    && Value(w) <= 255
  }

  /** A dotted quad: four octets without superfluous zeros. */
  predicate Canonical(s: string) {
    var words := Split(s);
    |words| == 4 && forall i :: 0 <= i < 4 ==> CanonicalOctet(words[i])
  }

  lemma PrintIsCanonical(a: uint32)
    ensures Canonical(Print(a))
  {
    SplitPrint(a);
    forall i | 0 <= i < 4
      ensures CanonicalOctet(PrintedWords(a)[i])
    {
      ValueOfDecimal(Octet(a, i));
      DecimalIsShortest(Octet(a, i));
    }
  }

  /** A string is recovered from its parse exactly when it is a canonical dotted quad. */
  lemma PrintParse(s: string)
    ensures (Parse(s).Ok? && Print(Parse(s).value) == s) <==> Canonical(s)
  {
    if Parse(s).Ok? && Print(Parse(s).value) == s {
      PrintIsCanonical(Parse(s).value);
    }
    if Canonical(s) {
      CanonicalParses(s);
    }
  }

  lemma CanonicalParses(s: string)
    requires Canonical(s)
    ensures Parse(s).Ok? && Print(Parse(s).value) == s
  {
    var b := OctetsOf(Split(s));
    FourWords(Split(s), b);
    WriteBack(b);
    PrintsJoined(ReadUint32(b, 0), s);
  }

  lemma OctetsOf(words: seq<string>) returns (b: bytes)
    requires |words| == 4 && forall i :: 0 <= i < 4 ==> CanonicalOctet(words[i])
    ensures |b| == 4
    ensures forall i :: 0 <= i < 4 ==> ParseNumber(words[i]) == Some(At(b, i)) && Decimal(At(b, i)) == words[i]
  {
    b := [Value(words[0]), Value(words[1]), Value(words[2]), Value(words[3])];
    forall i | 0 <= i < 4
      ensures ParseNumber(words[i]) == Some(At(b, i)) && Decimal(At(b, i)) == words[i]
    {
      DecimalOfValue(words[i]);
    }
  }

  lemma PrintsJoined(a: uint32, s: string)
    requires s != "" && Split(s) == PrintedWords(a)
    ensures Print(a) == s
  {
    JoinWords(s);
    JoinFour(PrintedWords(a));
  }

  lemma JoinFour(words: seq<string>)
    requires |words| == 4
    ensures Join(words) == words[0] + "." + (words[1] + "." + (words[2] + "." + words[3]))
  {
    assert words[1..][1..] == words[2..] && words[2..][1..] == words[3..];
    assert Join(words[3..]) == words[3];
    assert Join(words[2..]) == words[2] + "." + words[3];
    assert Join(words[1..]) == words[1] + "." + (words[2] + "." + words[3]);
  }

  lemma ValueOf300(w: string)
    requires w == "300"
    ensures AllDigits(w) && Value(w) == 300 && Words(w) == [w]
  {
    WordsOfPrefix(w, "");
    var u := w[..2];
    var v := u[..1];
    assert u == "30" && v == "3" && v[..0] == "";
    assert Value(v) == 3;
    assert Value(u) == 30;
  }

  lemma OnlyNumber(w: string, v: uint32)
    requires ParseNumber(w) == Some(v)
    ensures Accumulated([w]) == Ok(v)
  {
    var words := [w];
    Start(words);
    assert ShiftIn(0, v) == v;
  }

  /** Text that parses without being canonical: octets are neither bounded nor counted from below. */
  lemma LooseTextParses(w: string)
    requires w == "300"
    ensures Parse(w) == Ok(300) && !Canonical(w)
  {
    ValueOf300(w);
    OnlyNumber(w, 300);
  }
}
