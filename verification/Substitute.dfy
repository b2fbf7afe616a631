// The compile-time check of Substitute() format strings (absl/strings/substitute.h). A format
// is the text before the terminating NUL; an int is its 32-bit two's-complement word.
module Substitute {
  import opened Bits

  // ----- The code -----

  const NUL: char := '\0'
  const MINUS_ONE: nat := 0xffff_ffff

  // The character at position i of a NUL-terminated string.
  function At(format: string, i: nat): char
    requires i <= |format|
  {
    if i == |format| then NUL else format[i]
  }

  predicate IsDigit(c: char)
  {
    '0' <= c <= '9'
  }

  function DigitValue(c: char): (d: nat)
    requires IsDigit(c)
    ensures d < 10
  {
    (c as int) - ('0' as int)
  }

  function CalculateOneBit(c: char): nat
  {
    if c < '0' || c > '9' then if c == '$' then 0 else MINUS_ONE
    else Shl(1, DigitValue(c), 32)
  }

  function SkipNumber(format: string, i: nat): (j: nat)
    requires i <= |format|
    ensures i <= j <= |format|
  {
    if At(format, i) == NUL then i else i + 1
  }

  function PlaceholderBitmask(format: string, i: nat): nat
    requires i <= |format|
    decreases |format| - i
  {
    if At(format, i) == NUL then 0
    else if format[i] != '$' then PlaceholderBitmask(format, i + 1)
    else BitOr(CalculateOneBit(At(format, i + 1)), PlaceholderBitmask(format, SkipNumber(format, i + 1)))
  }

  // ----- What a format means -----

  // A C string holds no NUL before its end.
  predicate IsCString(format: string)
  {
    forall i :: 0 <= i < |format| ==> format[i] != NUL
  }

  // How many dollars stand directly before position i.
  function DollarsBefore(format: string, i: nat): (n: nat)
    requires i <= |format|
    ensures n <= i
  {
    if i == 0 || format[i - 1] != '$' then 0 else 1 + DollarsBefore(format, i - 1)
  }

  // A dollar is unescaped when the dollars before it pair up.
  predicate Unescaped(format: string, i: nat)
  {
    i < |format| && format[i] == '$' && DollarsBefore(format, i) % 2 == 0
  }

  // What may follow an unescaped dollar: a position digit or a second dollar.
  predicate WellFollowed(format: string, i: nat)
    requires i < |format|
  {
    '0' <= At(format, i + 1) <= '9' || At(format, i + 1) == '$'
  }

  function Digit(d: nat): char
    requires d < 10
  {
    '0' + d as char
  }

  // Some dollar at or after position i stands unescaped before a wrong character or the end.
  ghost predicate MalformedFrom(format: string, i: nat)
  {
    exists j: nat :: i <= j && Unescaped(format, j) && !WellFollowed(format, j)
  }

  // The text from position i on asks for argument d.
  ghost predicate UsesFrom(format: string, i: nat, d: nat)
    requires d < 10
  {
    exists j: nat :: i <= j && Unescaped(format, j) && At(format, j + 1) == Digit(d)
  }

  ghost predicate Malformed(format: string)
  {
    MalformedFrom(format, 0)
  }

  ghost predicate Uses(format: string, d: nat)
    requires d < 10
  {
    UsesFrom(format, 0, d)
  }

  // ----- The mask is the meaning -----

  lemma {:induction false} PowerBit(d: nat, k: nat)
    ensures Bit(Pow2(d), k) <==> k == d
  {
    if d == 0 {
      if k > 0 {
        ZeroBit(k - 1);
      }
    } else if k > 0 {
      PowerBit(d - 1, k - 1);
    }
  }

  lemma {:induction false} OnesBit(n: nat, k: nat)
    ensures Bit(Pow2(n) - 1, k) <==> k < n
  {
    if n == 0 {
      ZeroBit(k);
    } else if k > 0 {
      OnesBit(n - 1, k - 1);
    }
  }

  // The ten digits have a bit each, a second dollar none, and all other characters give -1.
  lemma OneBitMeaning(c: char)
    ensures CalculateOneBit(c)
         == if '0' <= c <= '9' then Pow2(c as int - '0' as int) else if c == '$' then 0 else 0xffff_ffff
    ensures IsDigit(c) || c == '$' ==> CalculateOneBit(c) < Pow2(10)
    ensures IsDigit(c) ==> c == Digit(DigitValue(c))
  {
    if IsDigit(c) {
      ShlOne(DigitValue(c), 32);
      Pow2Monotone(DigitValue(c), 10);
    }
  }

  // The scan stands where an unescaped dollar would be recognised.
  predicate Boundary(format: string, i: nat)
    requires i <= |format|
  {
    i == |format| || DollarsBefore(format, i) % 2 == 0
  }

  // Where the recursion continues.
  function NextPosition(format: string, i: nat): (j: nat)
    requires IsCString(format) && i < |format|
    ensures i < j <= |format|
  {
    if format[i] != '$' then i + 1 else SkipNumber(format, i + 1)
  }

  lemma ScanStep(format: string, i: nat)
    requires IsCString(format) && i < |format| && Boundary(format, i)
    ensures Boundary(format, NextPosition(format, i))
    ensures Unescaped(format, i) <==> format[i] == '$'
    ensures forall j :: i < j < NextPosition(format, i) ==> !Unescaped(format, j)
  {
    if format[i] == '$' && i + 1 < |format| {
      assert DollarsBefore(format, i + 1) == DollarsBefore(format, i) + 1;
      assert DollarsBefore(format, i + 2) == if format[i + 1] == '$' then DollarsBefore(format, i + 1) + 1 else 0;
    }
  }

  lemma MalformedStep(format: string, i: nat)
    requires IsCString(format) && i < |format| && Boundary(format, i)
    ensures MalformedFrom(format, i) <==>
            (format[i] == '$' && !WellFollowed(format, i)) || MalformedFrom(format, NextPosition(format, i))
  {
    ScanStep(format, i);
    var next := NextPosition(format, i);
    if MalformedFrom(format, i) {
      var j: nat :| i <= j && Unescaped(format, j) && !WellFollowed(format, j);
      assert j == i || j >= next;
    }
  }

  lemma UsesStep(format: string, i: nat, d: nat)
    requires IsCString(format) && i < |format| && Boundary(format, i) && d < 10
    ensures UsesFrom(format, i, d) <==>
            (format[i] == '$' && At(format, i + 1) == Digit(d)) || UsesFrom(format, NextPosition(format, i), d)
  {
    ScanStep(format, i);
    var next := NextPosition(format, i);
    if UsesFrom(format, i, d) {
      var j: nat :| i <= j && Unescaped(format, j) && At(format, j + 1) == Digit(d);
      assert j == i || j >= next;
    }
  }

  lemma {:induction false} MaskFrom(format: string, i: nat)
    requires IsCString(format) && i <= |format| && Boundary(format, i)
    ensures MalformedFrom(format, i) ==> PlaceholderBitmask(format, i) == MINUS_ONE
    ensures !MalformedFrom(format, i) ==> PlaceholderBitmask(format, i) < Pow2(10)
    decreases |format| - i
  {
    if i < |format| {
      var next := NextPosition(format, i);
      ScanStep(format, i);
      MalformedStep(format, i);
      MaskFrom(format, next);
      if format[i] == '$' {
        OneBitMeaning(At(format, i + 1));
        OrMeaning(CalculateOneBit(At(format, i + 1)), PlaceholderBitmask(format, next));
      }
    }
  }

  // -1 absorbs; two masks of ten bits give a mask of ten bits.
  lemma OrMeaning(a: nat, b: nat)
    requires a < Pow2(10) || a == MINUS_ONE
    requires b < Pow2(10) || b == MINUS_ONE
    ensures a == MINUS_ONE || b == MINUS_ONE ==> BitOr(a, b) == MINUS_ONE
    ensures a < Pow2(10) && b < Pow2(10) ==> BitOr(a, b) < Pow2(10)
  {
    Pow2Values();
    Pow2Monotone(10, 32);
    if a == MINUS_ONE {
      OrAllOnes(b, 32);
    } else if b == MINUS_ONE {
      OrAllOnes(a, 32);
    } else {
      OrBound(a, b, 10);
    }
  }

  lemma {:induction false} MaskBits(format: string, i: nat, d: nat)
    requires IsCString(format) && i <= |format| && Boundary(format, i) && d < 10
    requires !MalformedFrom(format, i)
    ensures Bit(PlaceholderBitmask(format, i), d) <==> UsesFrom(format, i, d)
    decreases |format| - i
  {
    if i == |format| {
      ZeroBit(d);
    } else {
      ScanStep(format, i);
      MalformedStep(format, i);
      UsesStep(format, i, d);
      MaskBits(format, NextPosition(format, i), d);
      if format[i] == '$' {
        MoreBits(At(format, i + 1), PlaceholderBitmask(format, NextPosition(format, i)), d);
      }
    }
  }

  lemma MoreBits(c: char, mask: nat, d: nat)
    requires (IsDigit(c) || c == '$') && d < 10
    ensures Bit(BitOr(CalculateOneBit(c), mask), d) <==> c == Digit(d) || Bit(mask, d)
  {
    OneBitMeaning(c);
    OrBit(CalculateOneBit(c), mask, d);
    if IsDigit(c) {
      PowerBit(DigitValue(c), d);
    } else {
      ZeroBit(d);
    }
  }

  // The mask is -1 exactly for the malformed formats.
  lemma MinusOneIffMalformed(format: string)
    requires IsCString(format)
    ensures PlaceholderBitmask(format, 0) == MINUS_ONE <==> Malformed(format)
  {
    MaskFrom(format, 0);
    Pow2Monotone(10, 31);
    Pow2Values();
    assert Pow2(32) == 2 * Pow2(31);
  }

  // The comparison made for a call with n arguments: it succeeds exactly when every unescaped
  // dollar is well followed and the positions asked for are 0, 1, ..., n - 1.
  lemma MaskMatchesArguments(format: string, n: nat)
    requires IsCString(format) && n <= 10
    ensures PlaceholderBitmask(format, 0) == Pow2(n) - 1 <==>
            !Malformed(format) && forall d: nat :: d < 10 ==> (Uses(format, d) <==> d < n)
  {
    var mask := PlaceholderBitmask(format, 0);
    MaskFrom(format, 0);
    MinusOneIffMalformed(format);
    Pow2Monotone(n, 10);
    if !Malformed(format) {
      forall d: nat | d < 10
        ensures Bit(mask, d) <==> Uses(format, d)
        ensures Bit(Pow2(n) - 1, d) <==> d < n
      {
        MaskBits(format, 0, d);
        OnesBit(n, d);
      }
      if forall d: nat :: d < 10 ==> (Uses(format, d) <==> d < n) {
        SameBits(mask, Pow2(n) - 1, 10);
      }
    } else {
      Pow2Monotone(10, 31);
      Pow2Values();
      assert Pow2(32) == 2 * Pow2(31);
    }
  }
}
