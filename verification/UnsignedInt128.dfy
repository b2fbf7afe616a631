// uint128 of absl/numeric/int128.h on two 64-bit limbs (the branches taken when the
// compiler has no 128-bit integer). The meaning of a pair of limbs is Value(); every
// operator is shown to compute modulo 2^128.
module UnsignedInt128 {
  import opened Bits

  const B: int := 0x1_0000_0000_0000_0000
  const S: int := 0x1_0000_0000
  const M: int := 0x1_0000_0000_0000_0000_0000_0000_0000_0000

  type Limb = x: nat | x < 0x1_0000_0000_0000_0000

  // uint64_t arithmetic: the result is reduced to the width of the type.
  function Wrap(x: int): Limb
  {
    x % 0x1_0000_0000_0000_0000
  }

  // One wrap at most, either way.
  lemma WrapCases(x: int)
    requires -B <= x < B + B
    ensures Wrap(x) == if x < 0 then x + B else if x < B then x else x - B
  {
  }

  datatype Uint128 = Uint128(hi: Limb, lo: Limb) {
    function Value(): (v: nat)
      ensures v < M
    {
      hi * B + lo
    }
  }

  // The value determines the limbs.
  lemma ValueInjective(x: Uint128, y: Uint128)
    ensures x == y <==> x.Value() == y.Value()
  {
  }

  // ----- Construction -----

  // Any integer type of at most 64 bits, signed or unsigned.
  function FromInt(v: int): (r: Uint128)
    requires -0x8000_0000_0000_0000 <= v < B
    ensures r.Value() == v % M
  {
    Uint128(if v < 0 then B - 1 else 0, Wrap(v))
  }

  // ----- Comparison -----

  predicate Equal(lhs: Uint128, rhs: Uint128)
    ensures Equal(lhs, rhs) <==> lhs.Value() == rhs.Value()
  {
    lhs.lo == rhs.lo && lhs.hi == rhs.hi
  }

  predicate Less(lhs: Uint128, rhs: Uint128)
    ensures Less(lhs, rhs) <==> lhs.Value() < rhs.Value()
  {
    if lhs.hi == rhs.hi then lhs.lo < rhs.lo else lhs.hi < rhs.hi
  }

  // ----- Addition, subtraction, negation -----

  // x modulo 2^128, where it is less than 2^128 off the range.
  function Reduced(x: int): int
  {
    if x < 0 then x + M else if x < M then x else x - M
  }

  lemma ReducedIsModulo(x: int)
    requires -M <= x < M + M
    ensures Reduced(x) == x % M
  {
    DivModUnique(x, M, if x < 0 then -1 else if x < M then 0 else 1, Reduced(x));
  }

  // `result` holds the limb sums; a carry shows as a low limb below that of an operand.
  function AddResult(result: Uint128, lhs: Uint128): Uint128
  {
    if result.lo < lhs.lo then Uint128(Wrap(result.hi + 1), result.lo) else result
  }

  function Add(lhs: Uint128, rhs: Uint128): (r: Uint128)
    ensures r.Value() == Reduced(lhs.Value() + rhs.Value())
  {
    var r := AddResult(Uint128(Wrap(lhs.hi + rhs.hi), Wrap(lhs.lo + rhs.lo)), lhs);
    AddCarries(lhs, rhs, r);
    r
  }

  lemma AddCarries(lhs: Uint128, rhs: Uint128, r: Uint128)
    requires r == AddResult(Uint128(Wrap(lhs.hi + rhs.hi), Wrap(lhs.lo + rhs.lo)), lhs)
    ensures r.Value() == Reduced(lhs.Value() + rhs.Value()) == (lhs.Value() + rhs.Value()) % M
  {
    ReducedIsModulo(lhs.Value() + rhs.Value());
    WrapCases(lhs.hi + rhs.hi);
    WrapCases(lhs.lo + rhs.lo);
    WrapCases(Wrap(lhs.hi + rhs.hi) + 1);
    var carry := if lhs.lo + rhs.lo >= B then 1 else 0;
    var k := if lhs.hi + rhs.hi + carry >= B then 1 else 0;
    assert r.lo == lhs.lo + rhs.lo - carry * B;
    assert r.hi == lhs.hi + rhs.hi + carry - k * B;
  }

  function SubstructResult(result: Uint128, lhs: Uint128, rhs: Uint128): Uint128
  {
    if lhs.lo < rhs.lo then Uint128(Wrap(result.hi - 1), result.lo) else result
  }

  function Sub(lhs: Uint128, rhs: Uint128): (r: Uint128)
    ensures r.Value() == Reduced(lhs.Value() - rhs.Value())
  {
    var r := SubstructResult(Uint128(Wrap(lhs.hi - rhs.hi), Wrap(lhs.lo - rhs.lo)), lhs, rhs);
    SubBorrows(lhs, rhs, r);
    r
  }

  lemma SubBorrows(lhs: Uint128, rhs: Uint128, r: Uint128)
    requires r == SubstructResult(Uint128(Wrap(lhs.hi - rhs.hi), Wrap(lhs.lo - rhs.lo)), lhs, rhs)
    ensures r.Value() == Reduced(lhs.Value() - rhs.Value()) == (lhs.Value() - rhs.Value()) % M
  {
    ReducedIsModulo(lhs.Value() - rhs.Value());
    WrapCases(lhs.hi - rhs.hi);
    WrapCases(lhs.lo - rhs.lo);
    WrapCases(Wrap(lhs.hi - rhs.hi) - 1);
    var borrow := if lhs.lo < rhs.lo then 1 else 0;
    var k := if lhs.hi - rhs.hi - borrow < 0 then 1 else 0;
    assert r.lo == lhs.lo - rhs.lo + borrow * B;
    assert r.hi == lhs.hi - rhs.hi - borrow + k * B;
  }

  // All bits of a limb inverted.
  function Complement(x: Limb): Limb
  {
    B - 1 - x
  }

  function Negate(val: Uint128): (r: Uint128)
    ensures r.Value() == Reduced(0 - val.Value())
  {
    var r := Uint128(Wrap(Complement(val.hi) + if val.lo == 0 then 1 else 0), Wrap(Complement(val.lo) + 1));
    NegateBorrows(val, r);
    r
  }

  lemma NegateBorrows(val: Uint128, r: Uint128)
    requires r == Uint128(Wrap(Complement(val.hi) + if val.lo == 0 then 1 else 0), Wrap(Complement(val.lo) + 1))
    ensures r.Value() == Reduced(0 - val.Value()) == (0 - val.Value()) % M
  {
    ReducedIsModulo(0 - val.Value());
    WrapCases(Complement(val.hi) + if val.lo == 0 then 1 else 0);
    WrapCases(Complement(val.lo) + 1);
  }

  // Each law is one of the values, where a sum, a difference or a negation is reduced.

  lemma CancelOnValues(a: Uint128, b: Uint128, s: Uint128, d: Uint128, x: Uint128, y: Uint128)
    requires s.Value() == Reduced(a.Value() + b.Value()) && x.Value() == Reduced(s.Value() - b.Value())
    requires d.Value() == Reduced(a.Value() - b.Value()) && y.Value() == Reduced(d.Value() + b.Value())
    ensures x == a && y == a
  {
    ValueInjective(x, a);
    ValueInjective(y, a);
  }

  lemma AddSubCancel(a: Uint128, b: Uint128)
    ensures Sub(Add(a, b), b) == a
    ensures Add(Sub(a, b), b) == a
  {
    CancelOnValues(a, b, Add(a, b), Sub(a, b), Sub(Add(a, b), b), Add(Sub(a, b), b));
  }

  lemma NegationOnValues(a: Uint128, n: Uint128, sum: Uint128, back: Uint128)
    requires n.Value() == Reduced(0 - a.Value()) && sum.Value() == Reduced(a.Value() + n.Value())
    requires back.Value() == Reduced(0 - n.Value())
    ensures sum == Uint128(0, 0) && back == a
  {
    ValueInjective(sum, Uint128(0, 0));
    ValueInjective(back, a);
  }

  lemma NegateCancels(a: Uint128)
    ensures Add(a, Negate(a)) == Uint128(0, 0)
    ensures Negate(Negate(a)) == a
  {
    NegationOnValues(a, Negate(a), Add(a, Negate(a)), Negate(Negate(a)));
  }

  lemma DifferenceOnValues(a: Uint128, b: Uint128, n: Uint128, x: Uint128, y: Uint128)
    requires n.Value() == Reduced(0 - b.Value())
    requires x.Value() == Reduced(a.Value() - b.Value()) && y.Value() == Reduced(a.Value() + n.Value())
    ensures x == y
  {
    ValueInjective(x, y);
  }

  // Subtraction is addition of the negation.
  lemma SubIsAddNegate(a: Uint128, b: Uint128)
    ensures Sub(a, b) == Add(a, Negate(b))
  {
    DifferenceOnValues(a, b, Negate(b), Sub(a, b), Add(a, Negate(b)));
  }

  lemma SumsOfThree(a: Uint128, b: Uint128, c: Uint128, l: Uint128, r: Uint128, x: Uint128, y: Uint128)
    requires l.Value() == Reduced(a.Value() + b.Value()) && x.Value() == Reduced(l.Value() + c.Value())
    requires r.Value() == Reduced(b.Value() + c.Value()) && y.Value() == Reduced(a.Value() + r.Value())
    ensures x == y
  {
    ValueInjective(x, y);
  }

  lemma AddAssociates(a: Uint128, b: Uint128, c: Uint128)
    ensures Add(Add(a, b), c) == Add(a, Add(b, c))
  {
    SumsOfThree(a, b, c, Add(a, b), Add(b, c), Add(Add(a, b), c), Add(a, Add(b, c)));
  }

  // ----- Shifts -----

  function LimbShl(x: Limb, k: nat): Limb
  {
    Pow2Values();
    Shl(x, k, 64)
  }

  function LimbShr(x: Limb, k: nat): Limb
  {
    Pow2Values();
    Pow2Monotone(64, 64 + k);
    ShrBound(x, 64, k);
    Shr(x, k)
  }

  function LimbOr(x: Limb, y: Limb): Limb
  {
    Pow2Values();
    OrBound(x, y, 64);
    BitOr(x, y)
  }

  function ShiftLeft(lhs: Uint128, amount: nat): Uint128
    requires amount < 128
  {
    if amount >= 64 then Uint128(LimbShl(lhs.lo, amount - 64), 0)
    else if amount == 0 then lhs
    else Uint128(LimbOr(LimbShl(lhs.hi, amount), LimbShr(lhs.lo, 64 - amount)), LimbShl(lhs.lo, amount))
  }

  function ShiftRight(lhs: Uint128, amount: nat): Uint128
    requires amount < 128
  {
    if amount >= 64 then Uint128(0, LimbShr(lhs.hi, amount - 64))
    else if amount == 0 then lhs
    else Uint128(LimbShr(lhs.hi, amount), LimbOr(LimbShr(lhs.lo, amount), LimbShl(lhs.hi, 64 - amount)))
  }

  // Shifting a limb left by k keeps its low 64 - k bits, moved up.
  lemma LimbShlParts(x: Limb, k: nat)
    requires k <= 64
    ensures x * Pow2(k) == Shr(x, 64 - k) * B + LowBits(x, 64 - k) * Pow2(k)
    ensures LimbShl(x, k) == LowBits(x, 64 - k) * Pow2(k)
  {
    ShrSplit(x, 64 - k);
    Pow2Values();
    Pow2Add(64 - k, k);
    Regroup(x, Shr(x, 64 - k), LowBits(x, 64 - k), Pow2(64 - k), Pow2(k));
  }

  lemma Regroup(x: nat, top: nat, rest: nat, q: nat, p: nat)
    requires x == top * q + rest && rest < q && p > 0 && q * p == B
    ensures x * p == top * B + rest * p
    ensures (x * p) % B == rest * p
  {
    Distribute(top * q, rest, p);
    MulReorder(top, q, 1, p);
    StrictlyBelow(rest, q, p);
    DivModUnique(x * p, B, top, rest * p);
  }

  lemma StrictlyBelow(a: nat, b: nat, p: nat)
    requires a < b && p > 0
    ensures a * p < b * p
  {
    MulAtLeast(b - a, p);
    assert (b - a) * p == b * p - a * p;
  }

  // << is multiplication by a power of two, modulo 2^128.
  lemma ShiftLeftMultiplies(lhs: Uint128, amount: nat)
    requires amount < 128
    ensures ShiftLeft(lhs, amount).Value() == (lhs.Value() * Pow2(amount)) % M
  {
    if amount >= 64 {
      ShiftLeftHigh(lhs, amount - 64);
    } else if amount == 0 {
      DivModUnique(lhs.Value(), M, 0, lhs.Value());
    } else {
      ShiftLeftMixed(lhs, amount);
    }
  }

  lemma ShiftLeftHigh(lhs: Uint128, k: nat)
    requires k < 64
    ensures LimbShl(lhs.lo, k) * B == (lhs.Value() * Pow2(64 + k)) % M
  {
    Pow2Values();
    Pow2Add(64, k);
    var p := Pow2(k);
    LimbShlParts(lhs.lo, k);
    var top, rest := Shr(lhs.lo, 64 - k), LowBits(lhs.lo, 64 - k);
    Distribute(lhs.hi * B, lhs.lo, B * p);
    MulReorder(lhs.hi, B, B, p);
    MulReorder(1, lhs.lo, B, p);
    assert lhs.Value() * (B * p) == (lhs.hi * p + top) * M + rest * p * B;
    DivModUnique(lhs.Value() * (B * p), M, lhs.hi * p + top, rest * p * B);
  }

  lemma MulReorder(a: nat, b: nat, c: nat, p: nat)
    ensures a * b * (c * p) == a * p * (b * c) == a * (b * p) * c
  {
  }

  lemma ShiftLeftMixed(lhs: Uint128, k: nat)
    requires 0 < k < 64
    ensures LimbOr(LimbShl(lhs.hi, k), LimbShr(lhs.lo, 64 - k)) * B + LimbShl(lhs.lo, k)
         == (lhs.Value() * Pow2(k)) % M
  {
    LimbShlParts(lhs.hi, k);
    LimbShlParts(lhs.lo, k);
    ShrBelow(lhs.lo, k);
    OrDisjoint(LowBits(lhs.hi, 64 - k), Shr(lhs.lo, 64 - k), k);
    LeftSum(lhs, Pow2(k), Shr(lhs.hi, 64 - k), Shr(lhs.lo, 64 - k),
            LimbOr(LimbShl(lhs.hi, k), LimbShr(lhs.lo, 64 - k)), LimbShl(lhs.lo, k));
  }

  // What leaves the low limb at the top enters the high limb at the bottom.
  lemma LeftSum(lhs: Uint128, p: nat, h1: nat, l1: nat, high: Limb, low: Limb)
    requires lhs.hi * p == h1 * B + (high - l1)
    requires lhs.lo * p == l1 * B + low
    ensures high * B + low == (lhs.Value() * p) % M
  {
    Distribute(lhs.hi * B, lhs.lo, p);
    MulReorder(lhs.hi, B, 1, p);
    var product := lhs.Value() * p;
    assert product == (h1 * B + (high - l1)) * B + (l1 * B + low);
    DivModUnique(product, M, h1, high * B + low);
  }

  // The bits moved out of a limb to the left fit below the limb above.
  lemma ShrBelow(x: Limb, k: nat)
    requires k <= 64
    ensures Shr(x, 64 - k) < Pow2(k)
  {
    Pow2Values();
    assert k + (64 - k) == 64;
    ShrBound(x, k, 64 - k);
  }

  lemma Distribute(a: int, b: int, p: int)
    ensures (a + b) * p == a * p + b * p
  {
  }

  lemma {:induction false} OrCommutes(a: nat, b: nat)
    ensures BitOr(a, b) == BitOr(b, a)
  {
    if a != 0 && b != 0 {
      OrCommutes(a / 2, b / 2);
    }
  }

  // >> is floor division by a power of two.
  lemma ShiftRightDivides(lhs: Uint128, amount: nat)
    requires amount < 128
    ensures ShiftRight(lhs, amount).Value() == lhs.Value() / Pow2(amount)
  {
    if amount >= 64 {
      ShiftRightHigh(lhs, amount - 64);
    } else if amount > 0 {
      ShiftRightMixed(lhs, amount);
    }
  }

  lemma ShiftRightHigh(lhs: Uint128, k: nat)
    requires k < 64
    ensures LimbShr(lhs.hi, k) == lhs.Value() / Pow2(64 + k)
  {
    Pow2Values();
    Pow2Add(64, k);
    ShrSplit(lhs.hi, k);
    RightHighSum(lhs, Pow2(k), Shr(lhs.hi, k), LowBits(lhs.hi, k));
  }

  lemma RightHighSum(lhs: Uint128, d: nat, q: nat, r: nat)
    requires lhs.hi == q * d + r && r < d
    ensures q == lhs.Value() / (B * d)
  {
    var qd := q * d;
    MulReorder(q, 1, B, d);
    MulAtMost(r + 1, d, B);
    assert lhs.Value() == q * (B * d) + (r * B + lhs.lo);
    DivModUnique(lhs.Value(), B * d, q, r * B + lhs.lo);
  }

  lemma ShiftRightMixed(lhs: Uint128, k: nat)
    requires 0 < k < 64
    ensures LimbShr(lhs.hi, k) * B + LimbOr(LimbShr(lhs.lo, k), LimbShl(lhs.hi, 64 - k))
         == lhs.Value() / Pow2(k)
  {
    Pow2Values();
    Pow2Add(k, 64 - k);
    var h0, l1 := LowBits(lhs.hi, k), Shr(lhs.lo, k);
    RightLowLimb(lhs, k);
    ShrSplit(lhs.hi, k);
    ShrSplit(lhs.lo, k);
    RightSum(lhs, Shr(lhs.hi, k), h0, l1, LowBits(lhs.lo, k), Pow2(k), Pow2(64 - k));
  }

  lemma RightLowLimb(lhs: Uint128, k: nat)
    requires 0 < k < 64
    ensures LimbOr(LimbShr(lhs.lo, k), LimbShl(lhs.hi, 64 - k))
         == LowBits(lhs.hi, k) * Pow2(64 - k) + Shr(lhs.lo, k)
  {
    var h0, l1 := LowBits(lhs.hi, k), Shr(lhs.lo, k);
    LimbShlParts(lhs.hi, 64 - k);
    ShrBelow(lhs.lo, 64 - k);
    OrDisjoint(h0, l1, 64 - k);
    OrCommutes(l1, h0 * Pow2(64 - k));
  }

  // What leaves the high limb at the bottom enters the low limb at the top.
  lemma RightSum(lhs: Uint128, h1: nat, h0: nat, l1: nat, l0: nat, p: nat, q: nat)
    requires p * q == B
    requires lhs.hi == h1 * p + h0 && lhs.lo == l1 * p + l0 && l0 < p
    ensures h1 * B + (h0 * q + l1) == lhs.Value() / p
  {
    Distribute(h1 * B + h0 * q, l1, p);
    Distribute(h1 * B, h0 * q, p);
    MulReorder(h1, B, 1, p);
    assert h0 * q * p == h0 * B by { MulReorder(h0, q, 1, p); assert h0 * (q * p) == h0 * B; MulReorder(h0, 1, q, p); }
    DivModUnique(lhs.Value(), p, h1 * B + h0 * q + l1, l0);
  }

  // ----- Multiplication -----

  // uint64_t multiplication.
  function LimbMul(x: Limb, y: Limb): Limb
  {
    Wrap(x * y)
  }

  // A product of two 32-bit halves fits a limb: no bit is lost.
  lemma HalfProductFits(x: Limb, y: Limb)
    requires x < S && y < S
    ensures LimbMul(x, y) == x * y < B
  {
    if y > 0 {
      StrictlyBelow(x, S, y);
    }
    assert S * y <= S * S;
  }

  lemma Foil(x: int, y: int, z: int, w: int, c: int)
    ensures (x * c + y) * (z * c + w) == x * z * (c * c) + (x * w + y * z) * c + y * w
  {
    Distribute(x * c, y, z * c + w);
    assert x * c * (z * c + w) == x * z * (c * c) + x * w * c;
    assert y * (z * c + w) == y * z * c + y * w;
    Distribute(x * w, y * z, c);
  }

  // The 32-bit halves of a limb.
  method Split(x: Limb) returns (high: Limb, low: Limb)
    ensures high < S && low < S && x == high * S + low
  {
    Halves(x);
    high := LimbShr(x, 32);
    low := BitAnd(x, 0xffff_ffff);
  }

  method HalfProduct(x: Limb, y: Limb) returns (product: Limb)
    requires x < S && y < S
    ensures product == x * y
  {
    HalfProductFits(x, y);
    product := LimbMul(x, y);
  }

  // What goes to the high limb without a carry from below.
  method HighProducts(lhs: Uint128, rhs: Uint128, a32: Limb, b32: Limb) returns (high: Limb)
    ensures high == Wrap(lhs.hi * rhs.lo + lhs.lo * rhs.hi + a32 * b32)
  {
    HighLimb(lhs.hi, rhs.lo, lhs.lo, rhs.hi, a32, b32);
    high := Wrap(Wrap(LimbMul(lhs.hi, rhs.lo) + LimbMul(lhs.lo, rhs.hi)) + LimbMul(a32, b32));
  }

  // The low limbs are split into 32-bit halves; the cross products are added 32 bits up.
  method Mul(lhs: Uint128, rhs: Uint128) returns (result: Uint128)
    ensures result.Value() == (lhs.Value() * rhs.Value()) % M
  {
    var a32, a00 := Split(lhs.lo);
    var b32, b00 := Split(rhs.lo);
    var high := HighProducts(lhs, rhs, a32, b32);
    var low := HalfProduct(a00, b00);
    var cross1 := HalfProduct(a32, b00);
    var cross2 := HalfProduct(a00, b32);
    var first := Uint128(high, low);
    var second := AddUp(first, cross1);
    result := AddUp(second, cross2);
    MulAccumulates(lhs, rhs, a32, a00, b32, b00, first, second, result);
  }

  lemma MulAccumulates(lhs: Uint128, rhs: Uint128, a32: Limb, a00: Limb, b32: Limb, b00: Limb,
                       first: Uint128, second: Uint128, result: Uint128)
    requires lhs.lo == a32 * S + a00 && rhs.lo == b32 * S + b00
    requires first.hi == Wrap(lhs.hi * rhs.lo + lhs.lo * rhs.hi + a32 * b32) && first.lo == a00 * b00
    requires second.Value() == (first.Value() + (a32 * b00) * S) % M
    requires result.Value() == (second.Value() + (a00 * b32) * S) % M
    ensures result.Value() == (lhs.Value() * rhs.Value()) % M
  {
    Accumulated(first.Value(), a32 * b00, a00 * b32);
    ProductModulo(lhs, rhs, a32, a00, b32, b00);
  }

  // Adds a product of half limbs, 32 bits up.
  method AddUp(sum: Uint128, product: Limb) returns (result: Uint128)
    ensures result.Value() == (sum.Value() + product * S) % M
  {
    var shifted := ShiftProduct(product);
    result := Add(sum, shifted);
    SameSum(sum, shifted, product * S, result);
  }

  method ShiftProduct(product: Limb) returns (shifted: Uint128)
    ensures shifted.Value() == product * S
  {
    ShiftedProduct(product);
    shifted := ShiftLeft(FromInt(product), 32);
  }

  lemma SameSum(sum: Uint128, shifted: Uint128, x: int, result: Uint128)
    requires result.Value() == Reduced(sum.Value() + shifted.Value()) && shifted.Value() == x
    ensures result.Value() == (sum.Value() + x) % M
  {
    ReducedIsModulo(sum.Value() + x);
  }

  lemma ShiftedProduct(product: Limb)
    ensures ShiftLeft(FromInt(product), 32).Value() == product * S
  {
    ShiftLeftMultiplies(FromInt(product), 32);
    Pow2Values();
    DivModUnique(product, M, 0, product);
    DivModUnique(product * S, M, 0, product * S);
  }

  // Reducing the summands first changes nothing.
  lemma WrapAdd(x: int, y: int)
    ensures Wrap(Wrap(x) + Wrap(y)) == Wrap(x + y)
  {
    ModMultiple(Wrap(x) + Wrap(y), x / B + y / B, B);
  }

  lemma WrapAddThree(x: int, y: int, z: int)
    ensures Wrap(Wrap(Wrap(x) + Wrap(y)) + Wrap(z)) == Wrap(x + y + z)
  {
    WrapAdd(x, y);
    WrapAdd(x + y, z);
  }

  lemma HighLimb(x1: Limb, y1: Limb, x2: Limb, y2: Limb, x3: Limb, y3: Limb)
    ensures Wrap(Wrap(LimbMul(x1, y1) + LimbMul(x2, y2)) + LimbMul(x3, y3)) == Wrap(x1 * y1 + x2 * y2 + x3 * y3)
  {
    WrapAddThree(x1 * y1, x2 * y2, x3 * y3);
  }

  lemma Accumulated(first: int, x: int, y: int)
    ensures ((first + x * S) % M + y * S) % M == (first + x * S + y * S) % M
  {
    var k := (first + x * S) / M;
    ModMultiple((first + x * S) % M + y * S, k, M);
  }

  lemma Halves(x: Limb)
    ensures LimbShr(x, 32) < S && BitAnd(x, 0xffff_ffff) < S
    ensures x == LimbShr(x, 32) * S + BitAnd(x, 0xffff_ffff)
  {
    Pow2Values();
    AndLowMask(x, 32);
    ShrIsDivision(x, 32);
  }

  lemma ProductModulo(lhs: Uint128, rhs: Uint128, a32: nat, a00: nat, b32: nat, b00: nat)
    requires lhs.lo == a32 * S + a00 && rhs.lo == b32 * S + b00
    ensures (lhs.Value() * rhs.Value()) % M
         == (Wrap(lhs.hi * rhs.lo + lhs.lo * rhs.hi + a32 * b32) * B + a00 * b00 + (a32 * b00) * S + (a00 * b32) * S) % M
  {
    var p1, p2, p3 := lhs.hi * rhs.lo, lhs.lo * rhs.hi, a32 * b32;
    Foil(lhs.hi, lhs.lo, rhs.hi, rhs.lo, B);
    Foil(a32, a00, b32, b00, S);
    var k := lhs.hi * rhs.hi + (p1 + p2 + p3) / B;
    ModMultiple((p1 + p2 + p3) % B * B + a00 * b00 + (a32 * b00) * S + (a00 * b32) * S, k, M);
  }

  // ----- Operators that update their left operand -----

  class Uint128Variable {
    var v: Uint128

    constructor (initial: Uint128)
      ensures v == initial
    {
      v := initial;
    }

    method AddAssign(other: Uint128)
      modifies this
      ensures v.Value() == (old(v.Value()) + other.Value()) % M
    {
      ReducedIsModulo(v.Value() + other.Value());
      v := Add(v, other);
    }

    method SubAssign(other: Uint128)
      modifies this
      ensures v.Value() == (old(v.Value()) - other.Value()) % M
    {
      ReducedIsModulo(v.Value() - other.Value());
      v := Sub(v, other);
    }

    method MulAssign(other: Uint128)
      modifies this
      ensures v.Value() == (old(v.Value()) * other.Value()) % M
    {
      v := Mul(v, other);
    }

    method ShlAssign(amount: nat)
      requires amount < 128
      modifies this
      ensures v.Value() == (old(v.Value()) * Pow2(amount)) % M
    {
      ShiftLeftMultiplies(v, amount);
      v := ShiftLeft(v, amount);
    }

    method ShrAssign(amount: nat)
      requires amount < 128
      modifies this
      ensures v.Value() == old(v.Value()) / Pow2(amount)
    {
      ShiftRightDivides(v, amount);
      v := ShiftRight(v, amount);
    }

    // The value before the increment is returned; the variable counts round from 2^128 - 1 to 0.
    method PostIncrement() returns (before: Uint128)
      modifies this
      ensures before == old(v)
      ensures v.Value() == if before.Value() == M - 1 then 0 else before.Value() + 1
    {
      before := v;
      AddAssign(FromInt(1));
    }

    method PostDecrement() returns (before: Uint128)
      modifies this
      ensures before == old(v)
      ensures v.Value() == if before.Value() == 0 then M - 1 else before.Value() - 1
    {
      before := v;
      SubAssign(FromInt(1));
    }
  }
}
