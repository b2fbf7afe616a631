// Formatting of 64-bit integers into a 32-byte buffer: FastHexToBufferZeroPad16 of
// absl/strings/numbers.h and the Hex and Dec conversions of absl/strings/str_cat.h.
module Numbers {
  import opened Bits
  import opened Options

  const FAST_TO_BUFFER_SIZE: nat := 32
  const U64: int := 0x1_0000_0000_0000_0000

  // ----- Numerals -----

  // The character of a digit below 16.
  function DigitChar(d: nat): char
    requires d < 16
  {
    if d < 10 then '0' + d as char else 'a' + (d - 10) as char
  }

  function CharDigit(c: char): (d: nat)
    ensures d <= 16
  {
    if '0' <= c <= '9' then c as int - '0' as int
    else if 'a' <= c <= 'f' then c as int - 'a' as int + 10
    else 16
  }

  predicate IsNumeral(base: nat, s: string)
  {
    forall i :: 0 <= i < |s| ==> CharDigit(s[i]) < base
  }

  // The number a string of digits denotes.
  function NumeralValue(base: nat, s: string): nat
  {
    if s == "" then 0 else NumeralValue(base, s[..|s| - 1]) * base + CharDigit(s[|s| - 1])
  }

  // The shortest numeral of v; zero has one digit.
  function Digits(base: nat, v: nat): (s: string)
    requires 2 <= base <= 16
    ensures |s| > 0
  {
    if v < base then [DigitChar(v)] else Digits(base, v / base) + [DigitChar(v % base)]
  }

  // The n lowest digits of v, leading zeros included.
  function FixedDigits(base: nat, v: nat, n: nat): (s: string)
    requires 2 <= base <= 16
    ensures |s| == n
  {
    if n == 0 then "" else FixedDigits(base, v / base, n - 1) + [DigitChar(v % base)]
  }

  function Fill(c: char, n: nat): (s: string)
    ensures |s| == n && forall i :: 0 <= i < n ==> s[i] == c
  {
    seq(n, _ => c)
  }

  lemma DigitRoundTrip(d: nat)
    requires d < 16
    ensures CharDigit(DigitChar(d)) == d
  {
  }

  // Reading back the digits of a number gives the number, and there is no leading zero.
  lemma {:induction false} DigitsRoundTrip(base: nat, v: nat)
    requires 2 <= base <= 16
    ensures IsNumeral(base, Digits(base, v)) && NumeralValue(base, Digits(base, v)) == v
    ensures v > 0 ==> Digits(base, v)[0] != '0'
  {
    if v >= base {
      LastDigit(base, v);
      var q, d := v / base, v % base;
      DigitsRoundTrip(base, q);
      AppendDigit(base, Digits(base, q), d);
      assert Digits(base, v) == Digits(base, q) + [DigitChar(d)];
    } else {
      AppendDigit(base, "", v);
      assert [DigitChar(v)] == "" + [DigitChar(v)];
    }
  }

  lemma LastDigit(base: nat, v: nat)
    requires 2 <= base <= v
    ensures 0 < v / base < v && 0 <= v % base < base
    ensures v == v / base * base + v % base
  {
    if v / base <= 0 {
      MulAtLeast(1 - v / base, base);
    }
  }

  lemma AppendDigit(base: nat, s: string, d: nat)
    requires d < base <= 16 && IsNumeral(base, s)
    ensures IsNumeral(base, s + [DigitChar(d)])
    ensures NumeralValue(base, s + [DigitChar(d)]) == NumeralValue(base, s) * base + d
  {
    DigitRoundTrip(d);
    assert (s + [DigitChar(d)])[..|s|] == s;
  }

  function Power(base: nat, n: nat): (p: nat)
    ensures base > 0 ==> p > 0
  {
    if n == 0 then 1 else base * Power(base, n - 1)
  }

  // A number below base^n has at most n digits.
  lemma {:induction false} DigitsAtMost(base: nat, v: nat, n: nat)
    requires 2 <= base <= 16 && n > 0 && v < Power(base, n)
    ensures |Digits(base, v)| <= n
  {
    if v >= base {
      LastDigit(base, v);
      var q, p := v / base, Power(base, n - 1);
      assert (q - p + 1) * base == q * base - base * p + base;
      if q >= p {
        MulAtLeast(q - p + 1, base);
      }
      DigitsAtMost(base, q, n - 1);
    }
  }

  lemma DecimalDigitsAtMost20(v: nat)
    requires v < U64
    ensures |Digits(10, v)| <= 20
  {
    assert Power(10, 2) == 100;
    assert Power(10, 4) == 10 * (10 * Power(10, 2)) == 10000;
    assert Power(10, 7) == 10 * (10 * (10 * Power(10, 4))) == 10000000;
    assert Power(10, 10) == 10 * (10 * (10 * Power(10, 7))) == 10000000000;
    assert Power(10, 13) == 10 * (10 * (10 * Power(10, 10)));
    assert Power(10, 16) == 10 * (10 * (10 * Power(10, 13)));
    assert Power(10, 19) == 10 * (10 * (10 * Power(10, 16)));
    assert Power(10, 20) == 10 * Power(10, 19) == 100000000000000000000;
    DigitsAtMost(10, v, 20);
  }

  // The fixed-width numeral is the shortest one behind zeros.
  lemma {:induction false} FixedIsPadded(base: nat, v: nat, n: nat)
    requires 2 <= base <= 16 && |Digits(base, v)| <= n
    ensures FixedDigits(base, v, n) == Fill('0', n - |Digits(base, v)|) + Digits(base, v)
  {
    if v >= base {
      LastDigit(base, v);
      FixedIsPadded(base, v / base, n - 1);
    } else {
      DivModUnique(v, base, 0, v);
      ZeroDigits(base, n - 1);
    }
  }

  lemma {:induction false} ZeroDigits(base: nat, n: nat)
    requires 2 <= base <= 16
    ensures FixedDigits(base, 0, n) == Fill('0', n)
  {
    if n > 0 {
      DivModUnique(0, base, 0, 0);
      ZeroDigits(base, n - 1);
    }
  }

  // Hexadecimal digits hold four bits each.
  lemma {:induction false} HexLength(v: nat)
    requires v > 0
    ensures |Digits(16, v)| == (BitLength(v) + 3) / 4
  {
    if v >= 16 {
      HexLength(v / 16);
      FourBits(v);
      assert Digits(16, v) == Digits(16, v / 16) + [DigitChar(v % 16)];
    } else {
      NibbleLength(v);
    }
  }

  lemma FourBits(v: nat)
    requires v >= 16
    ensures BitLength(v) == 4 + BitLength(v / 16)
  {
    assert BitLength(v) == 2 + BitLength(v / 2 / 2);
    assert BitLength(v / 2 / 2) == 2 + BitLength(v / 2 / 2 / 2 / 2);
    assert v / 2 / 2 / 2 / 2 == v / 16;
  }

  // ----- FastHexToBufferZeroPad16 -----

  // An entry of the table of two-digit numerals.
  function HexPair(byte: nat): (s: string)
    requires byte < 256
    ensures |s| == 2
  {
    FixedDigits(16, byte, 2)
  }

  // Sixteen digits are written at `out`; the result is how many of them are significant.
  method FastHexToBufferZeroPad16(val: nat, buffer: array<char>, out: nat) returns (width: nat)
    requires val < U64 && out + 16 <= buffer.Length
    modifies buffer
    ensures buffer[..out] == old(buffer[..out]) && buffer[out + 16..] == old(buffer[out + 16..])
    ensures buffer[out..out + 16] == FixedDigits(16, val, 16)
    ensures width == |Digits(16, val)| <= 16
  {
    for i := 0 to 8
      invariant buffer[..out] == old(buffer[..out]) && buffer[out + 16..] == old(buffer[out + 16..])
      invariant buffer[out..out + 2 * i] == FixedDigits(16, Shr(val, 64 - 8 * i), 2 * i)
    {
      ghost var before := buffer[..];
      var byte := BitAnd(Shr(val, 56 - 8 * i), 0xff);
      NextByte(val, 56 - 8 * i, 2 * i);
      var hex := HexPair(byte);
      buffer[out + 2 * i] := hex[0];
      buffer[out + 2 * i + 1] := hex[1];
      PairWritten(before, buffer[..], out, 2 * i, hex);
    }
    width := HexWidth(val);
  }

  // Two characters written at out + n.
  lemma PairWritten(before: string, after: string, out: nat, n: nat, hex: string)
    requires |before| == |after| && out + n + 2 <= |before| && |hex| == 2
    requires after == before[out + n := hex[0]][out + n + 1 := hex[1]]
    ensures after[out..out + (n + 2)] == before[out..out + n] + hex
    ensures after[..out] == before[..out]
    ensures forall k :: out + n + 2 <= k <= |after| ==> after[k..] == before[k..]
  {
  }

  lemma NextByte(val: nat, k: nat, n: nat)
    ensures BitAnd(Shr(val, k), 0xff) < 256
    ensures FixedDigits(16, Shr(val, k), n + 2) == FixedDigits(16, Shr(val, k + 8), n) + HexPair(BitAnd(Shr(val, k), 0xff))
  {
    var q := Shr(val, k);
    Pow2Values();
    AndLowMask(q, 8);
    ShrTwice(val, k, 8);
    ShrIsDivision(q, 8);
    LastTwoDigits(q, n);
    LastTwoDigits(q % 256, 0);
  }

  lemma LastTwoDigits(q: nat, n: nat)
    ensures FixedDigits(16, q, n + 2) == FixedDigits(16, q / 256, n) + [DigitChar(q % 256 / 16), DigitChar(q % 16)]
    ensures q % 256 % 256 == q % 256 && q % 256 % 16 == q % 16
  {
    assert q / 16 / 16 == q / 256 && q / 16 % 16 == q % 256 / 16;
    assert FixedDigits(16, q, n + 2) == FixedDigits(16, q / 16, n + 1) + [DigitChar(q % 16)];
  }

  lemma {:induction false} ShrTwice(x: nat, j: nat, k: nat)
    ensures Shr(x, j + k) == Shr(Shr(x, j), k)
  {
    if j > 0 {
      ShrTwice(x / 2, j - 1, k);
    }
  }

  // The number of significant digits, from the leading zeros; the lowest bit is set first so that
  // zero has one digit.
  method HexWidth(val: nat) returns (width: nat)
    requires val < U64
    ensures width == |Digits(16, val)| <= 16
  {
    Pow2Values();
    Pow2Monotone(0, 64);
    OrBound(val, 1, 64);
    OneBitOr(val);
    var zeroes := CountLeadingZeroes64(BitOr(val, 1));
    BitLengthFits(BitOr(val, 1), 64);
    width := 16 - zeroes / 4;
    if val > 0 {
      HexLength(val);
    }
  }

  lemma OneBitOr(val: nat)
    ensures BitLength(BitOr(val, 1)) == if val == 0 then 1 else BitLength(val)
  {
    if val > 0 {
      assert BitOr(val, 1) == 2 * (val / 2) + 1;
    }
  }

  // memset and std::fill_n
  method Memset(buffer: array<char>, from: nat, n: nat, c: char)
    requires from + n <= buffer.Length
    modifies buffer
    ensures buffer[..from] == old(buffer[..from]) && buffer[from + n..] == old(buffer[from + n..])
    ensures buffer[from..from + n] == Fill(c, n)
  {
    for i := 0 to n
      invariant buffer[..from] == old(buffer[..from]) && buffer[from + n..] == old(buffer[from + n..])
      invariant forall k :: from <= k < from + i ==> buffer[k] == c
    {
      buffer[from + i] := c;
    }
  }

  // ----- Padding -----

  // A PadSpec enumerator: 1 is kNoPad, 2 to 20 are kZeroPad2 to kZeroPad20, and 64 more are
  // kSpacePad2 to kSpacePad20.
  predicate IsPadSpec(spec: nat)
  {
    1 <= spec <= 20 || 66 <= spec <= 84
  }

  const NO_PAD: nat := 1
  const ZERO_PAD_2: nat := 2
  const SPACE_PAD_2: nat := 66

  function PadWidth(spec: nat): (w: nat)
    requires IsPadSpec(spec)
    ensures 1 <= w <= 20
    ensures w == if spec <= 20 then spec else spec - 64
  {
    if spec == NO_PAD then 1 else if spec >= SPACE_PAD_2 then spec - SPACE_PAD_2 + 2 else spec - ZERO_PAD_2 + 2
  }

  function PadFill(spec: nat): char
  {
    if spec >= SPACE_PAD_2 then ' ' else '0'
  }

  // How many fill characters bring n characters up to the width.
  function Missing(width: nat, n: nat): nat
  {
    if n < width then width - n else 0
  }

  // ----- Hex -----

  datatype Hex = Hex(value: nat, width: nat, fill: char) {
    predicate Valid()
    {
      value < U64 && 1 <= width <= 20 && (fill == ' ' || fill == '0')
    }
  }

  // From an integer type of the given number of bits; a negative value is taken as unsigned.
  function MakeHex(v: int, bits: nat, spec: nat): (h: Hex)
    requires bits in {8, 16, 32, 64} && IsPadSpec(spec)
    ensures h.Valid() && h.value == v % Pow2(bits)
    ensures h.fill == (if spec <= 20 then '0' else ' ') && h.width == if spec <= 20 then spec else spec - 64
  {
    Pow2Values();
    Hex(v % Pow2(bits), PadWidth(spec), PadFill(spec))
  }

  function HexText(h: Hex): string
  {
    Fill(h.fill, Missing(h.width, |Digits(16, h.value)|)) + Digits(16, h.value)
  }

  method HexStringify(hex: Hex) returns (text: string)
    requires hex.Valid()
    ensures text == HexText(hex)
    ensures var digits := Digits(16, hex.value);
            && |text| == (if |digits| < hex.width then hex.width else |digits|)
            && text[|text| - |digits|..] == digits
            && forall i :: 0 <= i < |text| - |digits| ==> text[i] == hex.fill
  {
    var buffer := new char[FAST_TO_BUFFER_SIZE];
    var end := FAST_TO_BUFFER_SIZE;
    var realWidth := FastHexToBufferZeroPad16(hex.value, buffer, end - 16);
    FixedIsPadded(16, hex.value, 16);
    ghost var digits := Digits(16, hex.value);
    TailOfTail(buffer[..], 16, realWidth);
    if realWidth >= hex.width {
      text := buffer[end - realWidth..];
    } else {
      Memset(buffer, end - 32, 16, hex.fill);
      ghost var low := buffer[..16];
      Memset(buffer, end - realWidth - 16, 16, hex.fill);
      Overlap(buffer[..], low, realWidth, hex.fill);
      FilledTail(buffer[..], hex.width, realWidth, hex.fill, digits);
      text := buffer[end - hex.width..];
    }
  }

  lemma TailOfTail(buffer: string, n: nat, m: nat)
    requires |buffer| == 32 && m <= n <= 32
    ensures buffer[32 - n..32 - n + n] == buffer[32 - n..]
    ensures buffer[32 - m..] == buffer[32 - n..][n - m..]
  {
  }

  // The last `width` characters of a buffer that is filled in front of its digits.
  lemma FilledTail(buffer: string, width: nat, n: nat, c: char, digits: string)
    requires |buffer| == 32 && n <= width <= 32
    requires buffer[..32 - n] == Fill(c, 32 - n) && buffer[32 - n..] == digits
    ensures buffer[32 - width..] == Fill(c, width - n) + digits
  {
    assert buffer == Fill(c, 32 - n) + digits;
  }

  // The two fills of 16 characters cover everything in front of the digits.
  lemma Overlap(buffer: string, low: string, digits: nat, c: char)
    requires |buffer| == 32 && digits <= 16
    requires low == Fill(c, 16) && buffer[..16 - digits] == low[..16 - digits]
    requires buffer[16 - digits..32 - digits] == Fill(c, 16)
    ensures buffer[..32 - digits] == Fill(c, 32 - digits)
  {
    assert buffer[..32 - digits] == buffer[..16 - digits] + buffer[16 - digits..32 - digits];
  }

  // ----- Dec -----

  datatype Dec = Dec(value: nat, width: nat, fill: char, neg: bool) {
    predicate Valid()
    {
      value < U64 && 1 <= width <= 20 && (fill == ' ' || fill == '0')
    }

    function Denotes(): int
    {
      var v: int := value;
      if neg then -v else v
    }
  }

  // From any integer type of at most 64 bits, signed or not.
  function MakeDec(v: int, spec: nat): (d: Dec)
    requires -0x8000_0000_0000_0000 <= v < U64 && IsPadSpec(spec)
    ensures d.Valid() && d.Denotes() == v && (d.neg <==> v < 0)
    ensures d.fill == (if spec <= 20 then '0' else ' ') && d.width == if spec <= 20 then spec else spec - 64
  {
    Dec(if v >= 0 then v else (0 - v % U64) % U64, PadWidth(spec), PadFill(spec), v < 0)
  }

  function Sign(d: Dec): string
  {
    if d.neg then "-" else ""
  }

  // Spaces go in front of the sign, zeros behind it.
  function DecText(d: Dec): string
  {
    var digits := Digits(10, d.value);
    var filling := Fill(d.fill, Missing(d.width, |Sign(d)| + |digits|));
    if d.fill == '0' then Sign(d) + filling + digits else filling + Sign(d) + digits
  }

  method DecStringify(dec: Dec) returns (text: string)
    requires dec.Valid()
    ensures text == DecText(dec)
  {
    var buffer := new char[FAST_TO_BUFFER_SIZE];
    var end := FAST_TO_BUFFER_SIZE;
    var minfill: int := end - dec.width;
    var writer := WriteDigits(dec.value, buffer);
    if dec.neg {
      writer := PutInFront(buffer, writer, '-');
    }
    assert buffer[writer..] == Sign(dec) + Digits(10, dec.value);
    var fillers := writer - minfill;
    if fillers > 0 {
      var addSignAgain := false;
      if dec.neg && dec.fill == '0' {
        writer := writer + 1;
        addSignAgain := true;
      }
      ghost var kept := if addSignAgain then Digits(10, dec.value) else Sign(dec) + Digits(10, dec.value);
      assert buffer[writer..] == kept;
      writer := FillInFront(buffer, writer, fillers, dec.fill);
      if addSignAgain {
        writer := PutInFront(buffer, writer, '-');
      }
      DecTextSplit(dec, fillers);
    }
    text := buffer[writer..];
  }

  // One character further to the front.
  method PutInFront(buffer: array<char>, writer0: int, c: char) returns (writer: int)
    requires 0 < writer0 <= buffer.Length
    modifies buffer
    ensures writer == writer0 - 1
    ensures buffer[writer..] == [c] + old(buffer[writer0..])
  {
    writer := writer0 - 1;
    buffer[writer] := c;
  }

  method FillInFront(buffer: array<char>, writer0: int, fillers: nat, c: char) returns (writer: int)
    requires fillers <= writer0 <= buffer.Length
    modifies buffer
    ensures writer == writer0 - fillers
    ensures buffer[writer..] == Fill(c, fillers) + old(buffer[writer0..])
  {
    writer := writer0 - fillers;
    Memset(buffer, writer, fillers, c);
  }

  // The digits are written backwards from the end of the buffer.
  method WriteDigits(value: nat, buffer: array<char>) returns (writer: int)
    requires value < U64 && buffer.Length == FAST_TO_BUFFER_SIZE
    modifies buffer
    ensures writer == FAST_TO_BUFFER_SIZE - |Digits(10, value)| >= 12
    ensures buffer[writer..] == Digits(10, value)
  {
    DecimalDigitsAtMost20(value);
    writer := FAST_TO_BUFFER_SIZE;
    var val := value;
    while val > 9
      invariant 0 <= writer <= buffer.Length
      invariant Digits(10, value) == Digits(10, val) + buffer[writer..]
    {
      writer := PutInFront(buffer, writer, '0' + (val % 10) as char);
      val := val / 10;
    }
    writer := PutInFront(buffer, writer, '0' + val as char);
  }

  // ----- Reading the text back -----

  function SkipSpaces(text: string): string
  {
    if text != "" && text[0] == ' ' then SkipSpaces(text[1..]) else text
  }

  function ReadNumeral(base: nat, text: string): Option<nat>
  {
    if text != "" && IsNumeral(base, text) then Some(NumeralValue(base, text)) else None
  }

  // Spaces, an optional minus sign, and at least one digit.
  function Read(base: nat, text: string): Option<int>
  {
    var t := SkipSpaces(text);
    if t != "" && t[0] == '-' then
      match ReadNumeral(base, t[1..])
      case None => None
      case Some(n) =>
        var v: int := n;
        Some(-v)
    else
      match ReadNumeral(base, t)
      case None => None
      case Some(n) => Some(n)
  }

  lemma {:induction false} SkipFill(n: nat, rest: string)
    requires rest != "" && rest[0] != ' '
    ensures SkipSpaces(Fill(' ', n) + rest) == rest
  {
    if n > 0 {
      SkipFill(n - 1, rest);
      assert (Fill(' ', n) + rest)[1..] == Fill(' ', n - 1) + rest;
    } else {
      assert Fill(' ', 0) + rest == rest;
    }
  }

  // Zeros in front of a numeral do not change it.
  lemma {:induction false} LeadingZeros(base: nat, n: nat, s: string)
    requires 2 <= base <= 16 && IsNumeral(base, s)
    ensures IsNumeral(base, Fill('0', n) + s) && NumeralValue(base, Fill('0', n) + s) == NumeralValue(base, s)
  {
    var t := Fill('0', n) + s;
    if s != "" {
      LeadingZeros(base, n, s[..|s| - 1]);
      assert t[..|t| - 1] == Fill('0', n) + s[..|s| - 1];
    } else if n > 0 {
      LeadingZeros(base, n - 1, s);
      assert t[..|t| - 1] == Fill('0', n - 1) + s;
    }
  }

  lemma ReadSigned(d: Dec, numeral: string)
    requires numeral != "" && IsNumeral(10, numeral) && NumeralValue(10, numeral) == d.value
    ensures Sign(d) + numeral != "" && (Sign(d) + numeral)[0] != ' '
    ensures Read(10, Sign(d) + numeral) == Some(d.Denotes())
  {
    FirstIsDigit(10, numeral);
    assert d.neg ==> (Sign(d) + numeral)[1..] == numeral;
    assert !d.neg ==> Sign(d) + numeral == numeral;
  }

  lemma ReadBehindSpaces(base: nat, n: nat, body: string)
    requires body != "" && body[0] != ' '
    ensures Read(base, Fill(' ', n) + body) == Read(base, body)
  {
    SkipFill(n, body);
    SkipFill(0, body);
    assert Fill(' ', 0) + body == body;
  }

  lemma DecTextReadsBack(d: Dec)
    requires d.Valid()
    ensures Read(10, DecText(d)) == Some(d.Denotes())
  {
    var digits := Digits(10, d.value);
    var n := Missing(d.width, |Sign(d)| + |digits|);
    DigitsRoundTrip(10, d.value);
    DecTextSplit(d, n);
    if d.fill == '0' {
      LeadingZeros(10, n, digits);
      ReadSigned(d, Fill('0', n) + digits);
    } else {
      ReadSigned(d, digits);
      ReadBehindSpaces(10, n, Sign(d) + digits);
    }
  }

  lemma DecTextSplit(d: Dec, n: nat)
    requires n == Missing(d.width, |Sign(d)| + |Digits(10, d.value)|)
    ensures d.fill == '0' ==> DecText(d) == Sign(d) + (Fill('0', n) + Digits(10, d.value))
    ensures d.fill != '0' ==> DecText(d) == Fill(d.fill, n) + (Sign(d) + Digits(10, d.value))
  {
  }

  // Every integer of at most 64 bits is read back from its padded decimal text, and the text
  // has the requested width unless the number needs more.
  lemma DecReadsBack(v: int, spec: nat)
    requires -0x8000_0000_0000_0000 <= v < U64 && IsPadSpec(spec)
    ensures Read(10, DecText(MakeDec(v, spec))) == Some(v)
    ensures var d := MakeDec(v, spec);
            var body := Sign(d) + Digits(10, d.value);
            |DecText(d)| == if |body| < PadWidth(spec) then PadWidth(spec) else |body|
  {
    DecTextReadsBack(MakeDec(v, spec));
  }

  lemma FirstIsDigit(base: nat, s: string)
    requires base <= 16 && s != "" && IsNumeral(base, s)
    ensures s[0] != ' ' && s[0] != '-'
  {
    assert CharDigit(s[0]) < base;
  }

  lemma ReadPlain(base: nat, s: string)
    requires base <= 16 && s != "" && IsNumeral(base, s)
    ensures Read(base, s) == Some(NumeralValue(base, s))
  {
    FirstIsDigit(base, s);
  }

  // A numeral behind zeros or spaces is read as its value.
  lemma PaddedReadsBack(base: nat, c: char, n: nat, digits: string)
    requires 2 <= base <= 16 && digits != "" && IsNumeral(base, digits) && (c == '0' || c == ' ')
    ensures Read(base, Fill(c, n) + digits) == Some(NumeralValue(base, digits))
  {
    if c == '0' {
      LeadingZeros(base, n, digits);
      ReadPlain(base, Fill('0', n) + digits);
    } else {
      ReadPlain(base, digits);
      FirstIsDigit(base, digits);
      ReadBehindSpaces(base, n, digits);
    }
  }

  lemma HexReadsBack(h: Hex)
    requires h.Valid()
    ensures Read(16, HexText(h)) == Some(h.value)
    ensures |HexText(h)| == if |Digits(16, h.value)| < h.width then h.width else |Digits(16, h.value)|
  {
    var digits := Digits(16, h.value);
    DigitsRoundTrip(16, h.value);
    PaddedReadsBack(16, h.fill, Missing(h.width, |digits|), digits);
  }

  // A number of any integer type, padded in any way, is read back as the unsigned number with its
  // bits, and the text has the requested width unless the number needs more.
  lemma MadeHexReadsBack(v: int, bits: nat, spec: nat)
    requires bits in {8, 16, 32, 64} && IsPadSpec(spec)
    ensures Read(16, HexText(MakeHex(v, bits, spec))) == Some(v % Pow2(bits))
    ensures var digits := Digits(16, v % Pow2(bits));
            |HexText(MakeHex(v, bits, spec))| == if |digits| < PadWidth(spec) then PadWidth(spec) else |digits|
  {
    HexReadsBack(MakeHex(v, bits, spec));
  }

  // The sixteen characters of the fast path denote the value.
  lemma FixedHexReadsBack(val: nat)
    requires val < U64
    ensures IsNumeral(16, FixedDigits(16, val, 16)) && NumeralValue(16, FixedDigits(16, val, 16)) == val
  {
    var digits := Digits(16, val);
    HexDigitsAtMost16(val);
    FixedIsPadded(16, val, 16);
    DigitsRoundTrip(16, val);
    LeadingZeros(16, 16 - |digits|, digits);
  }

  lemma HexDigitsAtMost16(val: nat)
    requires val < U64
    ensures |Digits(16, val)| <= 16
  {
    Pow2Values();
    BitLengthFits(val, 64);
    if val > 0 {
      HexLength(val);
    }
  }

  lemma {:induction false} NumeralBelowPower(base: nat, s: string)
    requires 2 <= base <= 16 && IsNumeral(base, s)
    ensures NumeralValue(base, s) < Power(base, |s|)
  {
    if s != "" {
      var t, p := s[..|s| - 1], Power(base, |s| - 1);
      NumeralBelowPower(base, t);
      Carry(NumeralValue(base, t), p, base, CharDigit(s[|s| - 1]));
    }
  }

  lemma Carry(q: nat, p: nat, base: nat, c: nat)
    requires q < p && c < base
    ensures q * base + c < base * p
  {
    assert (p - q) * base == base * p - q * base;
    MulAtLeast(p - q, base);
  }

  // No numeral of the same value is shorter.
  lemma DigitsShortest(base: nat, s: string)
    requires 2 <= base <= 16 && s != "" && IsNumeral(base, s)
    ensures |Digits(base, NumeralValue(base, s))| <= |s|
  {
    NumeralBelowPower(base, s);
    DigitsAtMost(base, NumeralValue(base, s), |s|);
  }

  // ----- The text, character by character -----

  // The digit of v at the place k from the right.
  function Place(base: nat, v: nat, k: nat): (d: nat)
    requires base > 0
    ensures d < base
  {
    v / Power(base, k) % base
  }

  lemma PlaceStep(base: nat, v: nat, k: nat)
    requires base > 0
    ensures Place(base, v, 0) == v % base
    ensures k > 0 ==> Place(base, v, k) == Place(base, v / base, k - 1)
  {
    DivModUnique(v, 1, v, 0);
    assert v / Power(base, 0) == v;
    if k > 0 {
      DivTwice(v, base, Power(base, k - 1));
    }
  }

  lemma DivTwice(v: nat, a: nat, b: nat)
    requires a > 0 && b > 0
    ensures a * b > 0 && v / a / b == v / (a * b)
  {
    var q, r := v / a / b, v / a % b;
    assert v == a * (b * q + r) + v % a == a * b * q + (a * r + v % a);
    MulAtMost(r + 1, b, a);
    DivModUnique(v, a * b, q, a * r + v % a);
  }

  lemma DigitIs(d: nat)
    requires d < 16
    ensures DigitChar(d) == "0123456789abcdef"[d]
    ensures d < 10 ==> DigitChar(d) == '0' + d as char
  {
  }

  lemma {:induction false} DigitAt(base: nat, v: nat, k: nat)
    requires 2 <= base <= 16 && k < |Digits(base, v)|
    ensures Digits(base, v)[|Digits(base, v)| - 1 - k] == DigitChar(Place(base, v, k))
  {
    PlaceStep(base, v, k);
    if v >= base {
      LastDigit(base, v);
      assert Digits(base, v) == Digits(base, v / base) + [DigitChar(v % base)];
      if k > 0 {
        DigitAt(base, v / base, k - 1);
      }
    } else {
      DivModUnique(v, base, 0, v);
    }
  }

  // n digits are enough for v, and fewer are not.
  predicate HasDigits(base: nat, v: nat, n: nat)
    requires base > 0
  {
    n > 0 && v < Power(base, n) && (n > 1 ==> Power(base, n - 1) <= v)
  }

  lemma {:induction false} DigitCount(base: nat, v: nat)
    requires 2 <= base <= 16
    ensures HasDigits(base, v, |Digits(base, v)|)
  {
    if v >= base {
      LastDigit(base, v);
      var q, n := v / base, |Digits(base, v / base)|;
      DigitCount(base, q);
      assert |Digits(base, v)| == n + 1;
      MoreDigits(base, q, v % base, n);
    } else {
      assert Power(base, 0) == 1 && Power(base, 1) == base * Power(base, 0);
    }
  }

  lemma MoreDigits(base: nat, q: nat, d: nat, n: nat)
    requires d < base && q > 0 && HasDigits(base, q, n)
    ensures HasDigits(base, q * base + d, n + 1)
  {
    Carry(q, Power(base, n), base, d);
    if n > 1 {
      MulAtMost(Power(base, n - 1), q, base);
    } else {
      MulAtLeast(q, base);
      assert Power(base, 0) == 1 && Power(base, 1) == base * Power(base, 0);
    }
  }

  // A text that ends with the digits of u.
  lemma DigitsAre(base: nat, u: nat, text: string, lead: nat)
    requires 2 <= base <= 16 && lead <= |text| && text[lead..] == Digits(base, u)
    ensures forall i :: lead <= i < |text| ==> text[i] == DigitChar(Place(base, u, |text| - 1 - i))
  {
    forall i | lead <= i < |text|
      ensures text[i] == DigitChar(Place(base, u, |text| - 1 - i))
    {
      DigitAt(base, u, |text| - 1 - i);
      assert text[i] == text[lead..][i - lead];
    }
  }

  lemma HexDigitsAre(u: nat, text: string, n: nat)
    requires n == |Digits(16, u)| <= |text| && text[|text| - n..] == Digits(16, u)
    ensures forall i :: |text| - n <= i < |text| ==>
      text[i] == "0123456789abcdef"[u / Power(16, |text| - 1 - i) % 16]
  {
    DigitsAre(16, u, text, |text| - n);
    forall i | |text| - n <= i < |text|
      ensures text[i] == "0123456789abcdef"[u / Power(16, |text| - 1 - i) % 16]
    {
      DigitIs(Place(16, u, |text| - 1 - i));
    }
  }

  lemma DecDigitsAre(u: nat, text: string, n: nat)
    requires n == |Digits(10, u)| <= |text| && text[|text| - n..] == Digits(10, u)
    ensures forall i :: |text| - n <= i < |text| ==>
      text[i] == '0' + (u / Power(10, |text| - 1 - i) % 10) as char
  {
    DigitsAre(10, u, text, |text| - n);
    forall i | |text| - n <= i < |text|
      ensures text[i] == '0' + (u / Power(10, |text| - 1 - i) % 10) as char
    {
      DigitIs(Place(10, u, |text| - 1 - i));
    }
  }

  // The text of Hex: as many lower-case digits as the number needs, behind zeros for 1 to 20 and
  // behind spaces for 66 to 84. The number of digits is returned.
  lemma HexCharacters(v: int, bits: nat, spec: nat, u: nat) returns (text: string, n: nat)
    requires bits in {8, 16, 32, 64} && (1 <= spec <= 20 || 66 <= spec <= 84) && u == v % Pow2(bits)
    ensures text == HexText(MakeHex(v, bits, spec))
    ensures n > 0 && u < Power(16, n) && (n > 1 ==> Power(16, n - 1) <= u)
    ensures var width := if spec <= 20 then spec else spec - 64; |text| == if n < width then width else n
    ensures forall i :: 0 <= i < |text| - n ==> text[i] == if spec <= 20 then '0' else ' '
    ensures forall i :: |text| - n <= i < |text| ==>
      text[i] == "0123456789abcdef"[u / Power(16, |text| - 1 - i) % 16]
  {
    text, n := HexText(MakeHex(v, bits, spec)), |Digits(16, u)|;
    DigitCount(16, u);
    HexDigitsAre(u, text, n);
  }

  // The text of Dec: the digits, behind zeros with the sign in front of them for 1 to 20, and
  // behind the sign with spaces in front of it for 66 to 84.
  lemma DecCharacters(v: int, spec: nat, u: nat) returns (text: string, n: nat)
    requires -0x8000_0000_0000_0000 <= v < U64 && (1 <= spec <= 20 || 66 <= spec <= 84)
    requires u == if v < 0 then -v else v
    ensures text == DecText(MakeDec(v, spec))
    ensures n > 0 && u < Power(10, n) && (n > 1 ==> Power(10, n - 1) <= u)
    ensures var width, m := if spec <= 20 then spec else spec - 64, if v < 0 then n + 1 else n;
            |text| == if m < width then width else m
    ensures v < 0 && spec <= 20 ==> text[0] == '-' && forall i :: 1 <= i < |text| - n ==> text[i] == '0'
    ensures v < 0 && spec > 20 ==>
      text[|text| - n - 1] == '-' && forall i :: 0 <= i < |text| - n - 1 ==> text[i] == ' '
    ensures v >= 0 ==> forall i :: 0 <= i < |text| - n ==> text[i] == if spec <= 20 then '0' else ' '
    ensures forall i :: |text| - n <= i < |text| ==> text[i] == '0' + (u / Power(10, |text| - 1 - i) % 10) as char
  {
    text, n := DecText(MakeDec(v, spec)), |Digits(10, u)|;
    DigitCount(10, u);
    DecDigitsAre(u, text, n);
  }
}
