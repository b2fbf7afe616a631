// int128 of absl/numeric/int128_no_intrinsic.inc: a signed high limb over an unsigned low
// limb. An addition of int64_t values that leaves the range has no defined result in C++;
// such a step is None here.
module SignedInt128 {
  import opened Bits
  import opened Options
  import opened UnsignedInt128

  const I64MIN: int := -0x8000_0000_0000_0000
  const I64MAX: int := 0x7fff_ffff_ffff_ffff
  const I128MIN: int := -0x8000_0000_0000_0000_0000_0000_0000_0000
  const I128MAX: int := 0x7fff_ffff_ffff_ffff_ffff_ffff_ffff_ffff

  type SignedLimb = x: int | -0x8000_0000_0000_0000 <= x <= 0x7fff_ffff_ffff_ffff

  datatype Int128 = Int128(hi: SignedLimb, lo: Limb) {
    function Value(): (v: int)
      ensures Representable(v)
    {
      hi * B + lo
    }
  }

  predicate Representable(v: int)
  {
    I128MIN <= v <= I128MAX
  }

  // int64_t addition.
  function AddLimbs(x: SignedLimb, y: SignedLimb): Option<SignedLimb>
  {
    if I64MIN <= x + y <= I64MAX then Some(x + y) else None
  }

  // int64_t subtraction.
  function SubLimbs(x: SignedLimb, y: SignedLimb): Option<SignedLimb>
  {
    if I64MIN <= x - y <= I64MAX then Some(x - y) else None
  }

  // ----- Reinterpretation -----

  // The two's-complement reading of a word.
  function BitCastToSigned(v: Limb): (r: SignedLimb)
    ensures (r - v) % B == 0
    ensures r >= 0 <==> v <= I64MAX
  {
    TopBit(v);
    // By two complements where the top bit is set, so that no cast leaves the range.
    if BitAnd(v, 0x8000_0000_0000_0000) != 0 then -1 - Complement(v) else v
  }

  lemma TopBit(v: Limb)
    ensures BitAnd(v, 0x8000_0000_0000_0000) != 0 <==> v > I64MAX
  {
    Pow2Values();
    AndHighMask(v, 63, 64);
  }

  // uint128(int128): the same limbs, the high one read as unsigned.
  function ToUnsigned(v: Int128): (r: Uint128)
    ensures r.Value() == v.Value() % M
  {
    Uint128(Wrap(v.hi), v.lo)
  }

  // ----- Comparison and negation -----

  predicate SignedLess(lhs: Int128, rhs: Int128)
    ensures SignedLess(lhs, rhs) <==> lhs.Value() < rhs.Value()
  {
    if lhs.hi == rhs.hi then lhs.lo < rhs.lo else lhs.hi < rhs.hi
  }

  // Negation is defined of every value but the minimum.
  function SignedNegate(v: Int128): (r: Option<Int128>)
    ensures r.Some? <==> Representable(-v.Value())
    ensures r.Some? ==> r.value.Value() == -v.Value()
  {
    match AddLimbs(-1 - v.hi, if v.lo == 0 then 1 else 0)
    case None => None
    case Some(hi) => Some(Int128(hi, Wrap(Complement(v.lo) + 1)))
  }

  // ----- Addition and subtraction -----

  function SignedAdd(lhs: Int128, rhs: Int128): Option<Int128>
  {
    match AddLimbs(lhs.hi, rhs.hi)
    case None => None
    case Some(hi) =>
      var lo := Wrap(lhs.lo + rhs.lo);
      if lo < lhs.lo then
        match AddLimbs(hi, 1)
        case None => None
        case Some(carried) => Some(Int128(carried, lo))
      else Some(Int128(hi, lo))
  }

  function SignedSub(lhs: Int128, rhs: Int128): Option<Int128>
  {
    match SubLimbs(lhs.hi, rhs.hi)
    case None => None
    case Some(hi) =>
      var lo := Wrap(lhs.lo - rhs.lo);
      if lhs.lo < rhs.lo then
        match SubLimbs(hi, 1)
        case None => None
        case Some(borrowed) => Some(Int128(borrowed, lo))
      else Some(Int128(hi, lo))
  }

  // A defined sum is the exact sum. It is defined for the representable sums except those
  // whose high limbs fall one short of the range and would be brought back by the carry.
  lemma SignedAddDefined(lhs: Int128, rhs: Int128)
    ensures SignedAdd(lhs, rhs).Some? <==>
            Representable(lhs.Value() + rhs.Value()) && lhs.hi + rhs.hi != I64MIN - 1
    ensures SignedAdd(lhs, rhs).Some? ==> SignedAdd(lhs, rhs).value.Value() == lhs.Value() + rhs.Value()
  {
    WrapCases(lhs.lo + rhs.lo);
  }

  // -2^127 + 2^64 - 1 and 1 - 2^64 add up to -2^127, but the sum of the high limbs overflows.
  lemma SignedAddMissesMinimum()
    ensures Int128(I64MIN, B - 1).Value() + Int128(-1, 1).Value() == I128MIN
    ensures SignedAdd(Int128(I64MIN, B - 1), Int128(-1, 1)) == None
  {
  }

  lemma SignedSubDefined(lhs: Int128, rhs: Int128)
    ensures SignedSub(lhs, rhs).Some? <==>
            Representable(lhs.Value() - rhs.Value()) && lhs.hi - rhs.hi != I64MAX + 1
    ensures SignedSub(lhs, rhs).Some? ==> SignedSub(lhs, rhs).value.Value() == lhs.Value() - rhs.Value()
  {
    WrapCases(lhs.lo - rhs.lo);
  }

  // The difference of 2^127 - 2^64 and 1 - 2^64 is 2^127 - 1, but that of the high limbs overflows.
  lemma SignedSubMissesMaximum()
    ensures Int128(I64MAX, 0).Value() - Int128(-1, 1).Value() == I128MAX
    ensures SignedSub(Int128(I64MAX, 0), Int128(-1, 1)) == None
  {
  }

  // ----- Multiplication -----

  // The limbs of the unsigned product, the high one read back as signed.
  method SignedMul(lhs: Int128, rhs: Int128) returns (result: Int128)
    ensures (result.Value() - lhs.Value() * rhs.Value()) % M == 0
    ensures Representable(lhs.Value() * rhs.Value()) ==> result.Value() == lhs.Value() * rhs.Value()
  {
    var product := Mul(ToUnsigned(lhs), ToUnsigned(rhs));
    result := Int128(BitCastToSigned(product.hi), product.lo);
    CastProduct(product, result);
    SignedProduct(lhs.Value(), rhs.Value(), ToUnsigned(lhs).Value(), ToUnsigned(rhs).Value(), product.Value(), result);
  }

  lemma CastProduct(product: Uint128, result: Int128)
    requires result == Int128(BitCastToSigned(product.hi), product.lo)
    ensures (result.Value() - product.Value()) % M == 0
  {
    TopBit(product.hi);
    assert result.hi == product.hi || result.hi == product.hi - B;
    DivModUnique(result.Value() - product.Value(), M, if result.hi == product.hi then 0 else -1, 0);
  }

  lemma SignedProduct(l: int, r: int, ul: int, ur: int, product: int, result: Int128)
    requires ul == l % M && ur == r % M && product == (ul * ur) % M
    requires (result.Value() - product) % M == 0
    ensures (result.Value() - l * r) % M == 0
    ensures Representable(l * r) ==> result.Value() == l * r
  {
    var a, b, c, d := l / M, r / M, (ul * ur) / M, (result.Value() - product) / M;
    assert l == ul + a * M && r == ur + b * M;
    assert l * r == ul * ur + (a * ur + b * ul + a * b * M) * M by {
      Foil(a, ul, b, ur, M);
      Distribute(a * ur + ul * b, a * b * M, M);
      assert a * b * M * M == a * b * (M * M);
    }
    var k := d - c - (a * ur + b * ul + a * b * M);
    assert result.Value() - l * r == k * M;
    DivModUnique(result.Value() - l * r, M, k, 0);
    if Representable(l * r) {
      if k >= 1 { MulAtLeast(k, M); }
      if k <= -1 { MulAtLeast(-k, M); }
    }
  }
}
