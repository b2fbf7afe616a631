// Unsigned machine words as natural numbers: shifts, masks and the power-of-two
// functions of absl/numeric/bits.h. A word of width w is a nat below Pow2(w).
module Bits {

  function Pow2(k: nat): (p: nat)
    ensures p > 0
  {
    if k == 0 then 1 else 2 * Pow2(k - 1)
  }

  // ----- The bitwise operators, digit by digit -----

  function BitAnd(a: nat, b: nat): nat
  {
    if a == 0 || b == 0 then 0
    else 2 * BitAnd(a / 2, b / 2) + if a % 2 == 1 && b % 2 == 1 then 1 else 0
  }

  function BitOr(a: nat, b: nat): nat
  {
    if a == 0 then b
    else if b == 0 then a
    else 2 * BitOr(a / 2, b / 2) + if a % 2 == 1 || b % 2 == 1 then 1 else 0
  }

  // Left shift in a word of width w: bits pushed out at the top are lost.
  function Shl(x: nat, k: nat, w: nat): (r: nat)
    ensures r < Pow2(w)
  {
    (x * Pow2(k)) % Pow2(w)
  }

  // Right shift, one place at a time.
  function Shr(x: nat, k: nat): nat
  {
    if k == 0 then x else Shr(x / 2, k - 1)
  }

  // Bit k of x.
  predicate Bit(x: nat, k: nat)
  {
    if k == 0 then x % 2 == 1 else Bit(x / 2, k - 1)
  }

  // ----- Arithmetic of powers of two -----

  lemma DoubleProduct(a: int, b: int)
    ensures (2 * a) * b == 2 * (a * b) == a * (2 * b)
  {
  }

  lemma {:induction false} Pow2Add(j: nat, k: nat)
    ensures Pow2(j + k) == Pow2(j) * Pow2(k)
  {
    if j > 0 {
      Pow2Add(j - 1, k);
      DoubleProduct(Pow2(j - 1), Pow2(k));
    }
  }

  lemma {:induction false} Pow2Monotone(j: nat, k: nat)
    requires j <= k
    ensures Pow2(j) <= Pow2(k)
    ensures j < k ==> Pow2(j) < Pow2(k)
  {
    if j < k {
      Pow2Monotone(j, k - 1);
    }
  }

  lemma Pow2Values()
    ensures Pow2(3) == 8 && Pow2(4) == 16 && Pow2(5) == 32 && Pow2(6) == 64 && Pow2(8) == 0x100
    ensures Pow2(16) == 0x1_0000
    ensures Pow2(32) == 0x1_0000_0000
    ensures Pow2(63) == 0x8000_0000_0000_0000
    ensures Pow2(64) == 0x1_0000_0000_0000_0000
  {
    assert Pow2(2) == 4 && Pow2(3) == 8 && Pow2(4) == 16;
    Pow2Add(4, 1);
    Pow2Add(4, 2);
    Pow2Add(4, 4);
    Pow2Add(8, 8);
    Pow2Add(16, 16);
    Pow2Add(32, 32);
    assert Pow2(64) == 2 * Pow2(63);
  }

  // A quotient and a remainder in range are the only ones.
  lemma DivModUnique(x: int, d: int, q: int, r: int)
    requires d > 0 && 0 <= r < d && x == q * d + r
    ensures x / d == q && x % d == r
  {
    var q' := x / d;
    var r' := x % d;
    assert x == q' * d + r' && 0 <= r' < d;
    assert (q - q') * d == q * d - q' * d == r' - r;
    assert (q' - q) * d == r - r';
    if q' < q {
      MulAtLeast(q - q', d);
    } else if q' > q {
      MulAtLeast(q' - q, d);
    }
  }

  lemma {:induction false} MulAtLeast(n: int, d: int)
    requires n >= 1 && d >= 0
    ensures n * d >= d
  {
    if n > 1 {
      MulAtLeast(n - 1, d);
      assert n * d == (n - 1) * d + d;
    }
  }

  lemma MulAtMost(a: int, b: int, m: int)
    requires a <= b && m >= 0
    ensures a * m <= b * m
  {
    assert (b - a) * m == b * m - a * m;
    assert (b - a) * m >= 0;
  }

  // Removing a multiple of the modulus changes nothing.
  lemma ModMultiple(x: int, k: int, m: int)
    requires m > 0
    ensures (x + k * m) % m == x % m
  {
    DivModUnique(x + k * m, m, x / m + k, x % m) by {
      assert (x / m + k) * m == (x / m) * m + k * m;
    }
  }

  // Shifting right is floor division by a power of two.
  lemma {:induction false} ShrIsDivision(x: nat, k: nat)
    ensures Shr(x, k) == x / Pow2(k)
  {
    if k > 0 {
      ShrIsDivision(x / 2, k - 1);
      DivDouble(x, Pow2(k - 1));
    }
  }

  lemma DivDouble(x: nat, p: nat)
    requires p > 0
    ensures x / (2 * p) == x / 2 / p
  {
    var q, r := x / 2 / p, x / 2 % p;
    assert x / 2 == q * p + r;
    assert q * (2 * p) == 2 * (q * p);
    DivModUnique(x, 2 * p, q, 2 * r + x % 2);
  }

  lemma {:induction false} ShrBound(x: nat, j: nat, k: nat)
    requires x < Pow2(j + k)
    ensures Shr(x, k) < Pow2(j)
  {
    if k > 0 {
      ShrBound(x / 2, j, k - 1);
    }
  }

  // ----- What the masks mean -----

  lemma {:induction false} AndBounds(a: nat, b: nat)
    ensures BitAnd(a, b) <= a && BitAnd(a, b) <= b
  {
    if a != 0 && b != 0 {
      AndBounds(a / 2, b / 2);
    }
  }

  lemma ModDouble(x: nat, p: nat)
    requires p > 0
    ensures x % (2 * p) == 2 * (x / 2 % p) + x % 2
  {
    var q, r := x / 2 / p, x / 2 % p;
    assert x / 2 == q * p + r;
    assert q * (2 * p) == 2 * (q * p);
    DivModUnique(x, 2 * p, q, 2 * r + x % 2);
  }

  // One step of the mask, on a mask given by its half and its last bit.
  lemma AndStep(x: nat, m: nat)
    ensures BitAnd(x, 2 * m + 1) == 2 * BitAnd(x / 2, m) + x % 2
    ensures BitAnd(x, 2 * m) == 2 * BitAnd(x / 2, m)
  {
    assert (2 * m + 1) / 2 == m && (2 * m + 1) % 2 == 1;
  }

  // The number formed by the k lowest binary digits of x.
  function LowBits(x: nat, k: nat): nat
  {
    if k == 0 then 0 else 2 * LowBits(x / 2, k - 1) + x % 2
  }

  // A number is what a right shift keeps, moved back up, and what it drops.
  lemma {:induction false} ShrSplit(x: nat, k: nat)
    ensures x == Shr(x, k) * Pow2(k) + LowBits(x, k)
    ensures LowBits(x, k) < Pow2(k)
  {
    if k > 0 {
      ShrSplit(x / 2, k - 1);
      DoubleProduct(Shr(x / 2, k - 1), Pow2(k - 1));
    }
  }

  lemma {:induction false} LowBitsMod(x: nat, k: nat)
    ensures LowBits(x, k) == x % Pow2(k)
  {
    if k > 0 {
      LowBitsMod(x / 2, k - 1);
      ModDouble(x, Pow2(k - 1));
    }
  }

  lemma {:induction false} AndLowBits(x: nat, k: nat)
    ensures BitAnd(x, Pow2(k) - 1) == LowBits(x, k)
  {
    if k > 0 {
      AndLowBits(x / 2, k - 1);
      AndStep(x, Pow2(k - 1) - 1);
    }
  }

  // Masking with k low ones keeps the remainder modulo Pow2(k).
  lemma AndLowMask(x: nat, k: nat)
    ensures BitAnd(x, Pow2(k) - 1) == x % Pow2(k)
  {
    AndLowBits(x, k);
    LowBitsMod(x, k);
  }

  lemma {:induction false} AndAllOnes(x: nat, w: nat)
    requires x < Pow2(w)
    ensures BitAnd(x, Pow2(w) - 1) == x
  {
    if w > 0 {
      AndAllOnes(x / 2, w - 1);
      AndStep(x, Pow2(w - 1) - 1);
    }
  }

  lemma {:induction false} AndHighBits(x: nat, k: nat, w: nat)
    requires k <= w && x < Pow2(w)
    ensures Pow2(k) <= Pow2(w)
    ensures BitAnd(x, Pow2(w) - Pow2(k)) == x - LowBits(x, k)
  {
    Pow2Monotone(k, w);
    if k == 0 {
      AndAllOnes(x, w);
    } else {
      AndHighBits(x / 2, k - 1, w - 1);
      DoubleMask(x, Pow2(w - 1) - Pow2(k - 1), Pow2(w) - Pow2(k));
    }
  }

  // The mask with one more zero at the bottom.
  lemma DoubleMask(x: nat, m: nat, mask: nat)
    requires mask == 2 * m
    ensures BitAnd(x, mask) == 2 * BitAnd(x / 2, m)
  {
    AndStep(x, m);
  }

  // Masking with ones from bit k up to the top of the word rounds down to a multiple of Pow2(k).
  lemma AndHighMask(x: nat, k: nat, w: nat)
    requires k <= w && x < Pow2(w)
    ensures Pow2(k) <= Pow2(w)
    ensures BitAnd(x, Pow2(w) - Pow2(k)) == x - x % Pow2(k)
  {
    AndHighBits(x, k, w);
    LowBitsMod(x, k);
  }

  // Operands without a common bit are joined by addition.
  lemma {:induction false} OrDisjoint(a: nat, b: nat, k: nat)
    requires b < Pow2(k)
    ensures BitOr(a * Pow2(k), b) == a * Pow2(k) + b
  {
    if k == 0 || a == 0 || b == 0 {
      assert a == 0 ==> a * Pow2(k) == 0;
    } else {
      var p := Pow2(k - 1);
      DoubleProduct(a, p);
      assert a * (2 * p) > 0 by { MulAtLeast(a, 2 * p); }
      OrDisjoint(a, b / 2, k - 1);
    }
  }

  lemma {:induction false} OrBit(a: nat, b: nat, k: nat)
    ensures Bit(BitOr(a, b), k) == (Bit(a, k) || Bit(b, k))
  {
    if a == 0 {
      ZeroBit(k);
    } else if b == 0 {
      ZeroBit(k);
    } else if k > 0 {
      OrBit(a / 2, b / 2, k - 1);
    }
  }

  lemma {:induction false} ZeroBit(k: nat)
    ensures !Bit(0, k)
  {
    if k > 0 {
      ZeroBit(k - 1);
    }
  }

  lemma {:induction false} OrBound(a: nat, b: nat, w: nat)
    requires a < Pow2(w) && b < Pow2(w)
    ensures BitOr(a, b) < Pow2(w)
  {
    if a != 0 && b != 0 {
      OrBound(a / 2, b / 2, w - 1);
    }
  }

  // All ones absorbs.
  lemma {:induction false} OrAllOnes(a: nat, w: nat)
    requires a < Pow2(w)
    ensures BitOr(a, Pow2(w) - 1) == Pow2(w) - 1 == BitOr(Pow2(w) - 1, a)
  {
    if a != 0 {
      var p := Pow2(w - 1);
      assert (2 * p - 1) / 2 == p - 1 && (2 * p - 1) % 2 == 1;
      OrAllOnes(a / 2, w - 1);
    }
  }

  // A word is determined by its bits.
  lemma {:induction false} SameBits(a: nat, b: nat, w: nat)
    requires a < Pow2(w) && b < Pow2(w)
    requires forall k: nat :: k < w ==> Bit(a, k) == Bit(b, k)
    ensures a == b
  {
    if w > 0 {
      forall k: nat | k < w - 1
        ensures Bit(a / 2, k) == Bit(b / 2, k)
      {
        assert Bit(a, k + 1) == Bit(b, k + 1);
      }
      assert Bit(a, 0) == Bit(b, 0);
      SameBits(a / 2, b / 2, w - 1);
    }
  }

  // ----- bits.h -----

  // Number of binary digits of x.
  function BitLength(x: nat): nat
  {
    if x == 0 then 0 else 1 + BitLength(x / 2)
  }

  lemma {:induction false} BitLengthBounds(x: nat)
    requires x > 0
    ensures BitLength(x) > 0
    ensures Pow2(BitLength(x) - 1) <= x < Pow2(BitLength(x))
  {
    if x > 1 {
      BitLengthBounds(x / 2);
    }
  }

  // The digit count is the only exponent that fits.
  lemma BitLengthUnique(x: nat, n: nat)
    requires n > 0 && Pow2(n - 1) <= x < Pow2(n)
    ensures BitLength(x) == n
  {
    BitLengthBounds(x);
    if BitLength(x) < n {
      Pow2Monotone(BitLength(x), n - 1);
    } else if BitLength(x) > n {
      Pow2Monotone(n, BitLength(x) - 1);
    }
  }

  lemma BitLengthFits(x: nat, w: nat)
    requires x < Pow2(w)
    ensures BitLength(x) <= w
  {
    if x > 0 {
      BitLengthBounds(x);
      if BitLength(x) > w {
        Pow2Monotone(w, BitLength(x) - 1);
      }
    }
  }

  lemma {:induction false} BitLengthShift(x: nat, k: nat)
    ensures Shr(x, k) != 0 ==> BitLength(x) == k + BitLength(Shr(x, k))
    ensures Shr(x, k) == 0 ==> x < Pow2(k)
  {
    if k > 0 {
      BitLengthShift(x / 2, k - 1);
    }
  }

  predicate HasSingleBit(x: nat)
  {
    x != 0 && BitAnd(x, x - 1) == 0
  }

  predicate IsPower(x: nat, k: nat)
  {
    x == Pow2(k)
  }

  // The mask test holds of the powers of two and of nothing else.
  lemma {:induction false} HasSingleBitIffPowerOfTwo(x: nat)
    ensures HasSingleBit(x) <==> exists k: nat :: IsPower(x, k)
  {
    if x == 1 {
      assert IsPower(x, 0);
    } else if x % 2 == 1 {
      // Both x and x - 1 contain the top bit.
      AndSelf(x / 2);
      assert BitAnd(x, x - 1) == 2 * BitAnd(x / 2, x / 2);
      forall k: nat ensures !IsPower(x, k) {
        assert k > 0 ==> Pow2(k) == 2 * Pow2(k - 1);
      }
    } else if x > 0 {
      var y := x / 2;
      HasSingleBitIffPowerOfTwo(y);
      AndStep(x, y - 1);
      assert x - 1 == 2 * (y - 1) + 1;
      assert HasSingleBit(x) == HasSingleBit(y);
      if HasSingleBit(x) {
        var k: nat :| IsPower(y, k);
        assert IsPower(x, k + 1);
      }
      if exists k: nat :: IsPower(x, k) {
        var k: nat :| IsPower(x, k);
        assert k > 0 && IsPower(y, k - 1);
      }
    }
  }

  lemma {:induction false} AndSelf(x: nat)
    ensures BitAnd(x, x) == x
  {
    if x > 0 {
      AndSelf(x / 2);
    }
  }

  // 1 << k below the top of the word.
  lemma ShlOne(k: nat, w: nat)
    requires k < w
    ensures Shl(1, k, w) == Pow2(k)
  {
    Pow2Monotone(k, w);
    DivModUnique(Pow2(k), Pow2(w), 0, Pow2(k));
  }

  function CountLeadingZeroes(x: nat, w: nat): nat
    requires x < Pow2(w)
  {
    BitLengthFits(x, w);
    w - BitLength(x)
  }

  // The portable count: four conditional shifts and a 16-entry table.
  method CountLeadingZeroes64(x0: nat) returns (zeroes: int)
    requires x0 < Pow2(64)
    ensures zeroes == CountLeadingZeroes(x0, 64)
  {
    var x := x0;
    zeroes := 60;
    zeroes, x := ShiftOut(zeroes, x, 32);
    zeroes, x := ShiftOut(zeroes, x, 16);
    zeroes, x := ShiftOut(zeroes, x, 8);
    zeroes, x := ShiftOut(zeroes, x, 4);
    Pow2Values();
    NibbleLength(x);
    zeroes := CLZ_NIBBLE[x] + zeroes;
  }

  // One round of the count: a word with a bit in its upper half is replaced by that half, any other
  // word stays.
  method ShiftOut(zeroes0: int, x0: nat, k: nat) returns (zeroes: int, x: nat)
    requires x0 < Pow2(k + k)
    ensures x < Pow2(k)
    ensures zeroes - BitLength(x) == zeroes0 - BitLength(x0)
  {
    zeroes, x := zeroes0, x0;
    BitLengthShift(x0, k);
    if Shr(x, k) != 0 {
      ShrBound(x, k, k);
      zeroes := zeroes - k;
      x := Shr(x, k);
    }
  }

  // Leading zeroes of a four-bit value; the sixteenth entry is the terminator of the literal.
  const CLZ_NIBBLE: seq<nat> := [4, 3, 2, 2, 1, 1, 1, 1, 0, 0, 0, 0, 0, 0, 0, 0]

  lemma NibbleLength(x: nat)
    requires x < 16
    ensures BitLength(x) == 4 - CLZ_NIBBLE[x]
  {
    if x == 0 {
    } else if x < 2 {
      BitLengthUnique(x, 1);
    } else if x < 4 {
      BitLengthUnique(x, 2);
    } else if x < 8 {
      BitLengthUnique(x, 3);
    } else {
      BitLengthUnique(x, 4);
    }
  }

  function BitWidth(x: nat, w: nat): nat
    requires x < Pow2(w)
  {
    w - CountLeadingZeroes(x, w)
  }

  function BitFloor(x: nat, w: nat): nat
    requires x < Pow2(w)
  {
    if x == 0 then 0
    else
      BitLengthBounds(x);
      Shl(1, BitWidth(x, w) - 1, w)
  }

  // Defined where the result is representable.
  function BitCeil(x: nat, w: nat): nat
    requires w > 0 && x <= Pow2(w - 1)
  {
    if HasSingleBit(x) then
      BitLengthBounds(x);
      Shl(1, BitWidth(x, w) - 1, w)
    else Shl(1, BitWidth(x, w), w)
  }

  // bit_floor: the greatest power of two not above x; its exponent is bit_width - 1.
  lemma BitFloorIsGreatest(x: nat, w: nat, k: nat)
    requires 0 < x < Pow2(w)
    ensures BitWidth(x, w) > 0
    ensures BitFloor(x, w) == Pow2(BitWidth(x, w) - 1) <= x
    ensures HasSingleBit(BitFloor(x, w))
    ensures Pow2(k) <= x ==> Pow2(k) <= BitFloor(x, w)
  {
    BitLengthBounds(x);
    BitLengthFits(x, w);
    var n := BitLength(x);
    ShlOne(n - 1, w);
    HasSingleBitIffPowerOfTwo(Pow2(n - 1));
    assert IsPower(Pow2(n - 1), n - 1);
    if Pow2(k) <= x {
      if k >= n {
        Pow2Monotone(n, k);
      }
      Pow2Monotone(k, n - 1);
    }
  }

  // bit_ceil: the least power of two not below x.
  lemma BitCeilIsLeast(x: nat, w: nat, k: nat)
    requires w > 0 && x <= Pow2(w - 1)
    ensures HasSingleBit(BitCeil(x, w)) && x <= BitCeil(x, w)
    ensures x <= Pow2(k) ==> BitCeil(x, w) <= Pow2(k)
  {
    HasSingleBitIffPowerOfTwo(x);
    if x == 0 {
      ShlOne(0, w);
      HasSingleBitIffPowerOfTwo(Pow2(0));
      assert IsPower(Pow2(0), 0);
      Pow2Monotone(0, k);
    } else if HasSingleBit(x) {
      var j: nat :| IsPower(x, j);
      if j >= w { Pow2Monotone(w, j); }
      BitLengthUnique(x, j + 1);
      ShlOne(j, w);
    } else {
      BitLengthBounds(x);
      var n := BitLength(x);
      assert !IsPower(x, w - 1);
      if n >= w { Pow2Monotone(w - 1, n - 1); }
      ShlOne(n, w);
      HasSingleBitIffPowerOfTwo(Pow2(n));
      assert IsPower(Pow2(n), n);
      if x <= Pow2(k) {
        assert !IsPower(x, k);
        if k < n {
          Pow2Monotone(k, n - 1);
        }
        Pow2Monotone(n, k);
      }
    }
  }
}
