// The sizes that CordBuffer (absl/strings/cord_buffer.h) asks for.
module CordBufferLimits {
  import opened Bits
  import opened CordRepFlat

  const DEFAULT_LIMIT: nat := MAX_FLAT_LENGTH
  const CUSTOM_LIMIT: nat := 65536
  const MAX_PAGE_SLOP: nat := 128

  function Min(a: nat, b: nat): nat
  {
    if a <= b then a else b
  }

  function MaximumPayload(blockSize: nat): nat
  {
    ToSize(Min(CUSTOM_LIMIT, blockSize) - FLAT_OVERHEAD)
  }

  function Log2Floor(size: nat): nat
    requires size < Pow2(64)
  {
    ToSize(BitWidth(size, 64) - 1)
  }

  function Log2Ceil(size: nat): nat
    requires ToSize(size - 1) < Pow2(64)
  {
    BitWidth(ToSize(size - 1), 64)
  }

  // ----- Powers of two around a capacity -----

  lemma WidthBound(size: nat)
    requires 0 < size <= CUSTOM_LIMIT
    ensures size < Pow2(64) && 0 < BitLength(size) <= 17
    ensures Pow2(BitLength(size) - 1) <= size < 2 * Pow2(BitLength(size) - 1)
  {
    Pow2Values();
    Pow2Monotone(16, 64);
    BitLengthBounds(size);
    if BitLength(size) > 17 { Pow2Monotone(17, BitLength(size) - 1); }
  }

  lemma RoundedDown(size: nat)
    requires 0 < size <= CUSTOM_LIMIT
    ensures size < Pow2(64) && Log2Floor(size) <= 16
    ensures Shl(1, Log2Floor(size), 64) == Pow2(Log2Floor(size)) <= size < 2 * Pow2(Log2Floor(size))
  {
    WidthBound(size);
    NoWrap(BitLength(size) - 1);
    ShlOne(BitLength(size) - 1, 64);
  }

  lemma RoundedUp(size: nat)
    requires 1 < size <= CUSTOM_LIMIT
    ensures ToSize(size - 1) < Pow2(64) && 0 < Log2Ceil(size) <= 16
    ensures Shl(1, Log2Ceil(size), 64) == Pow2(Log2Ceil(size))
    ensures size <= Pow2(Log2Ceil(size)) < 2 * size
    ensures Pow2(Log2Ceil(size)) == 2 * Pow2(Log2Ceil(size) - 1)
  {
    Pow2Values();
    Pow2Monotone(16, 64);
    NoWrap(size - 1);
    BitLengthBounds(size - 1);
    var n := BitLength(size - 1);
    if n > 16 { Pow2Monotone(16, n - 1); }
    ShlOne(n, 64);
  }

  lemma PowersApart(p: nat, q: nat)
    requires HasSingleBit(p) && HasSingleBit(q) && p < q
    ensures q == 2 * p || q >= 4 * p
  {
    HasSingleBitIffPowerOfTwo(p);
    HasSingleBitIffPowerOfTwo(q);
    var j: nat :| IsPower(p, j);
    var k: nat :| IsPower(q, k);
    if k <= j { Pow2Monotone(k, j); }
    if k > j + 1 { Pow2Monotone(j + 2, k); }
    assert Pow2(j + 2) == 2 * Pow2(j + 1) == 4 * Pow2(j);
  }

  lemma PowerHasSingleBit(k: nat)
    ensures HasSingleBit(Pow2(k))
  {
    HasSingleBitIffPowerOfTwo(Pow2(k));
    assert IsPower(Pow2(k), k);
  }

  lemma Neighbours(size: nat)
    requires 1 < size <= CUSTOM_LIMIT && !HasSingleBit(size)
    ensures size < Pow2(64) && ToSize(size - 1) < Pow2(64) && Log2Ceil(size) <= 64 && Log2Floor(size) <= 64
    ensures var down, up := Shl(1, Log2Floor(size), 64), Shl(1, Log2Ceil(size), 64);
            HasSingleBit(down) && HasSingleBit(up) && down < size < up == 2 * down
  {
    RoundedDown(size);
    RoundedUp(size);
    PowerHasSingleBit(Log2Ceil(size));
    PowerHasSingleBit(Log2Floor(size));
    PowersApart(Pow2(Log2Floor(size)), Pow2(Log2Ceil(size)));
  }

  // ----- CreateWithCustomLimit -----

  // A power of two that wastes little when it is asked for instead of the capacity.
  predicate GoodFit(size: nat, capacity: nat)
  {
    capacity + FLAT_OVERHEAD <= size <= capacity + MAX_PAGE_SLOP + FLAT_OVERHEAD
  }

  // The allocation size for a capacity, both limited already: the block if the capacity fills it,
  // enough for a small capacity, and else a power of two, the capacity itself, a good fit above it
  // or, where there is none, the next one below.
  predicate IsAllocation(blockSize: nat, capacity: nat, size: nat)
  {
    if capacity + FLAT_OVERHEAD >= blockSize then size == blockSize
    else if capacity <= DEFAULT_LIMIT then size == capacity + FLAT_OVERHEAD
    else
      && HasSingleBit(size)
      && (size == capacity || GoodFit(size, capacity)
          || (size < capacity < 2 * size && !GoodFit(2 * size, capacity)))
  }

  // There is at most one such size.
  lemma AllocationUnique(blockSize: nat, capacity: nat, p: nat, q: nat)
    requires IsAllocation(blockSize, capacity, p) && IsAllocation(blockSize, capacity, q)
    ensures p == q
  {
    if p < q && capacity + FLAT_OVERHEAD < blockSize && capacity > DEFAULT_LIMIT {
      PowersApart(p, q);
    } else if q < p && capacity + FLAT_OVERHEAD < blockSize && capacity > DEFAULT_LIMIT {
      PowersApart(q, p);
    }
  }

  // The last branch: up where that is a good fit, else down.
  method RoundToPower(capacity: nat) returns (size: nat)
    requires 1 < capacity <= CUSTOM_LIMIT && !HasSingleBit(capacity)
    ensures HasSingleBit(size) && size <= 2 * capacity
    ensures GoodFit(size, capacity) || (size < capacity < 2 * size && !GoodFit(2 * size, capacity))
    ensures size > capacity ==> 13 <= size - capacity <= 141
    ensures size < capacity ==> capacity < 2 * size && !(13 <= 2 * size - capacity <= 141)
  {
    Neighbours(capacity);
    var roundedUp := Shl(1, Log2Ceil(capacity), 64);
    var slop := roundedUp - capacity;
    if FLAT_OVERHEAD <= slop <= MAX_PAGE_SLOP + FLAT_OVERHEAD {
      size := roundedUp;
    } else {
      size := Shl(1, Log2Floor(capacity), 64);
    }
  }

  // The length asked for: what the allocation size leaves after the overhead. It wraps around for
  // the blocks that do not even hold the overhead.
  predicate IsAsked(blockSize: nat, capacity: nat, length: nat)
  {
    if blockSize < 16 then length == SIZE_RANGE + blockSize - FLAT_OVERHEAD
    else IsAllocation(Min(blockSize, CUSTOM_LIMIT), Min(capacity, CUSTOM_LIMIT), length + FLAT_OVERHEAD)
  }

  method CreateWithCustomLimitImpl(blockSize0: nat, capacity0: nat) returns (length: nat)
    requires blockSize0 < SIZE_RANGE && capacity0 < SIZE_RANGE && HasSingleBit(blockSize0)
    ensures IsAsked(blockSize0, capacity0, length)
    ensures length + FLAT_OVERHEAD < SIZE_RANGE <==> blockSize0 >= 16
    ensures blockSize0 >= 16 && capacity0 + 13 >= Min(blockSize0, 65536) ==> length == Min(blockSize0, 65536) - 13
    ensures capacity0 + 13 < Min(blockSize0, 65536) && capacity0 <= 4083 ==> length == capacity0
    ensures capacity0 + 13 < Min(blockSize0, 65536) && capacity0 > 4083 ==>
      && (length >= capacity0 <==> exists k: nat :: 13 <= Pow2(k) - capacity0 <= 141)
      && (length >= capacity0 ==> capacity0 + 13 <= length + 13 <= capacity0 + 141)
      && (length < capacity0 ==> length + 13 <= capacity0 < 2 * (length + 13))
  {
    var capacity := Min(capacity0, CUSTOM_LIMIT);
    var blockSize := Min(blockSize0, CUSTOM_LIMIT);
    SmallBlock(blockSize0);
    if capacity + FLAT_OVERHEAD >= blockSize {
      capacity := blockSize;
    } else if capacity <= DEFAULT_LIMIT {
      capacity := capacity + FLAT_OVERHEAD;
    } else if !HasSingleBit(capacity) {
      capacity := RoundToPower(capacity);
    }
    length := ToSize(capacity - FLAT_OVERHEAD);
    MinusOverhead(capacity);
    LengthAsked(blockSize0, capacity0, length);
  }

  // The length asked for in bytes: what the block leaves, the capacity itself up to 4083, and else
  // a power of two less 13: that above the capacity if and only if it is 13 to 141 bytes above, and
  // otherwise the greatest one that is not above.
  lemma LengthAsked(blockSize: nat, capacity: nat, length: nat)
    requires HasSingleBit(blockSize) && IsAsked(blockSize, capacity, length)
    ensures blockSize < 16 ==> length + 13 == 0x1_0000_0000_0000_0000 + blockSize
    ensures blockSize >= 16 && capacity + 13 >= Min(blockSize, 65536) ==> length == Min(blockSize, 65536) - 13
    ensures capacity + 13 < Min(blockSize, 65536) && capacity <= 4083 ==> length == capacity
    ensures capacity + 13 < Min(blockSize, 65536) && capacity > 4083 ==>
      && HasSingleBit(length + 13)
      && (length >= capacity <==> exists k: nat :: 13 <= Pow2(k) - capacity <= 141)
      && (length >= capacity ==> length + 13 <= capacity + 141)
      && (length < capacity ==> length + 13 <= capacity < 2 * (length + 13))
  {
    SmallBlock(blockSize);
    if capacity + 13 < Min(blockSize, 65536) && capacity > 4083 {
      PowerAsked(capacity, length + 13);
    }
  }

  lemma Exponent(size: nat) returns (k: nat)
    requires HasSingleBit(size)
    ensures Pow2(k) == size
  {
    HasSingleBitIffPowerOfTwo(size);
    k :| IsPower(size, k);
  }

  lemma PowerAsked(capacity: nat, size: nat)
    requires capacity > 4083 && HasSingleBit(size)
    requires size == capacity || GoodFit(size, capacity) || (size < capacity < 2 * size && !GoodFit(2 * size, capacity))
    ensures size >= capacity + 13 <==> exists k: nat :: 13 <= Pow2(k) - capacity <= 141
  {
    if size >= capacity + 13 {
      var k := Exponent(size);
      assert 13 <= Pow2(k) - capacity <= 141;
    } else {
      forall k: nat
        ensures !(13 <= Pow2(k) - capacity <= 141)
      {
        PowerHasSingleBit(k);
        NoFit(capacity, size, Pow2(k));
      }
    }
  }

  // A power of two that is not above the capacity, while the next one is, or is no good fit.
  lemma NoFit(capacity: nat, size: nat, power: nat)
    requires capacity > 4083 && HasSingleBit(size) && HasSingleBit(power)
    requires size == capacity || (size < capacity < 2 * size && !GoodFit(2 * size, capacity))
    ensures !(13 <= power - capacity <= 141)
  {
    if size < power {
      PowersApart(size, power);
    }
  }

  lemma SmallBlock(blockSize: nat)
    requires HasSingleBit(blockSize)
    ensures blockSize < 16 ==> blockSize <= 8
  {
    if 8 < blockSize < 16 {
      PowerHasSingleBit(3);
      PowersApart(8, blockSize);
    }
  }

  lemma MinusOverhead(size: nat)
    requires size <= 2 * CUSTOM_LIMIT
    ensures ToSize(size - FLAT_OVERHEAD)
         == if size >= FLAT_OVERHEAD then size - FLAT_OVERHEAD else SIZE_RANGE + size - FLAT_OVERHEAD
  {
    if size >= FLAT_OVERHEAD {
      NoWrap(size - FLAT_OVERHEAD);
    } else {
      DivModUnique(size - FLAT_OVERHEAD, SIZE_RANGE, -1, SIZE_RANGE + size - FLAT_OVERHEAD);
    }
  }

  // ----- What the limits guarantee -----

  lemma LimitedBlock(blockSize: nat)
    requires HasSingleBit(blockSize)
    ensures HasSingleBit(Min(blockSize, CUSTOM_LIMIT))
  {
    Pow2Values();
    PowerHasSingleBit(16);
  }

  lemma PayloadOf(blockSize: nat)
    requires HasSingleBit(blockSize)
    ensures MaximumPayload(blockSize)
         == if blockSize >= 16 then Min(blockSize, 65536) - 13 else 0x1_0000_0000_0000_0000 + blockSize - 13
  {
    SmallBlock(blockSize);
    MinusOverhead(Min(blockSize, CUSTOM_LIMIT));
  }

  // The payload limit holds. A length covers a capacity up to the default limit if the block has
  // room for it, or by wrapping around. Larger capacities get a power of two, more than half of
  // what they should have, unless the length wraps around.
  lemma CustomLimitKept(blockSize: nat, capacity: nat, length: nat)
    requires HasSingleBit(blockSize) && IsAsked(blockSize, capacity, length)
    ensures length <= MaximumPayload(blockSize)
    ensures capacity <= DEFAULT_LIMIT ==> length >= Min(capacity, MaximumPayload(blockSize))
    ensures capacity <= DEFAULT_LIMIT ==>
      (length >= capacity <==> blockSize < 16 || capacity + FLAT_OVERHEAD <= blockSize)
    ensures capacity > DEFAULT_LIMIT ==> (HasSingleBit(length + FLAT_OVERHEAD) <==> blockSize >= 16)
    ensures capacity >= blockSize ==> length == MaximumPayload(blockSize)
    ensures 2 * (length + FLAT_OVERHEAD) > Min(capacity, MaximumPayload(blockSize))
  {
    LimitedBlock(blockSize);
    PayloadOf(blockSize);
    if blockSize < 16 {
      SmallBlock(blockSize);
      WrappedIsNoPower(blockSize);
    } else {
      var b, size := Min(blockSize, CUSTOM_LIMIT), length + FLAT_OVERHEAD;
      if size > b {
        PowersApart(b, size);
      }
    }
  }

  lemma WrappedIsNoPower(blockSize: nat)
    requires 0 < blockSize < 16
    ensures !HasSingleBit(SIZE_RANGE + blockSize)
  {
    Pow2Values();
    PowerHasSingleBit(64);
    if HasSingleBit(SIZE_RANGE + blockSize) {
      PowersApart(SIZE_RANGE, SIZE_RANGE + blockSize);
    }
  }

  lemma BlockExponent(size: nat) returns (k: nat)
    requires HasSingleBit(size) && 32 <= size <= CUSTOM_LIMIT
    ensures IsPower(size, k) && 5 <= k <= 18
  {
    HasSingleBitIffPowerOfTwo(size);
    k :| IsPower(size, k);
    Pow2Values();
    if k < 5 { Pow2Monotone(k, 4); }
    if k > 16 { Pow2Monotone(17, k); }
  }

  lemma SmallestNode(length: nat)
    requires length <= MIN_FLAT_LENGTH
    ensures NewSize(MAX_LARGE_FLAT_SIZE, length) == NewSize(MAX_FLAT_SIZE, length) == MIN_FLAT_SIZE
  {
    ExactSize(MIN_FLAT_SIZE);
  }

  lemma LargestNode(length: nat)
    requires length >= MAX_LARGE_FLAT_SIZE
    ensures NewSize(MAX_LARGE_FLAT_SIZE, length) == MAX_LARGE_FLAT_SIZE
  {
    ExactSize(MAX_LARGE_FLAT_SIZE);
  }

  // A block of at least 32 bytes is used up exactly where the rounding asks for a power of two.
  lemma PowerAllocates(size: nat)
    requires HasSingleBit(size) && 32 <= size <= CUSTOM_LIMIT
    ensures NewSize(MAX_LARGE_FLAT_SIZE, size - FLAT_OVERHEAD) == size
  {
    var k := BlockExponent(size);
    PowerKeepsSize(size, k);
  }

  // The node allocated: never above the block, except that there is no node of 16 bytes and that a
  // wrapped length gets the largest node of all. A capacity of the block size or more gets exactly
  // the block where the block is between the smallest node and the custom limit.
  lemma CustomAllocates(blockSize: nat, capacity: nat, length: nat)
    requires HasSingleBit(blockSize) && IsAsked(blockSize, capacity, length)
    ensures var size := NewSize(MAX_LARGE_FLAT_SIZE, length);
            && (size <= blockSize <==> blockSize >= 32)
            && (size <= 65536 <==> blockSize >= 16)
            && (blockSize < 16 ==> size == 262144)
            && (blockSize >= 32 && capacity > 4083 ==> size == length + 13)
            && (capacity >= blockSize ==> (size == blockSize <==> 32 <= blockSize <= 65536))
  {
    SmallBlock(blockSize);
    if blockSize < 16 {
      LargestNode(length);
    } else if blockSize < 32 {
      PowersApart16(blockSize);
      SmallestNode(length);
    } else {
      LargeBlockAllocates(blockSize, capacity, length);
    }
  }

  lemma PowersApart16(blockSize: nat)
    requires HasSingleBit(blockSize) && 16 <= blockSize < 32
    ensures blockSize == 16
  {
    Pow2Values();
    PowerHasSingleBit(4);
    if 16 < blockSize {
      PowersApart(16, blockSize);
    }
  }

  lemma LargeBlockAllocates(blockSize: nat, capacity: nat, length: nat)
    requires HasSingleBit(blockSize) && blockSize >= 32 && IsAsked(blockSize, capacity, length)
    ensures var size := NewSize(MAX_LARGE_FLAT_SIZE, length);
            && size <= Min(blockSize, CUSTOM_LIMIT)
            && (capacity > DEFAULT_LIMIT || capacity >= blockSize ==> size == length + FLAT_OVERHEAD)
            && (capacity >= blockSize ==> size == Min(blockSize, CUSTOM_LIMIT))
  {
    var b, size := Min(blockSize, CUSTOM_LIMIT), length + FLAT_OVERHEAD;
    LimitedBlock(blockSize);
    if size > b {
      PowersApart(b, size);
    }
    WithinBlock(b, length);
    if capacity > DEFAULT_LIMIT || capacity >= blockSize {
      PowerAllocates(size);
    }
  }

  // The documentation calls the maximum payload that of the buffer returned. That is so exactly for
  // blocks of another size than 16 bytes, whose payload is below that of the smallest node.
  lemma PayloadKept(blockSize: nat, capacity: nat, length: nat)
    requires HasSingleBit(blockSize) && IsAsked(blockSize, capacity, length)
    ensures TagToLength(NewTag(MAX_LARGE_FLAT_SIZE, length)) <= MaximumPayload(blockSize) <==> blockSize != 16
  {
    NewKeepsSize(MAX_LARGE_FLAT_SIZE, length);
    PayloadOf(blockSize);
    if blockSize < 16 {
    } else if blockSize < 32 {
      PowersApart16(blockSize);
      SmallestNode(length);
    } else {
      LargeBlockAllocates(blockSize, capacity, length);
    }
  }

  lemma WithinBlock(blockSize: nat, length: nat)
    requires HasSingleBit(blockSize) && 32 <= blockSize <= CUSTOM_LIMIT
    requires length + FLAT_OVERHEAD <= blockSize
    ensures NewSize(MAX_LARGE_FLAT_SIZE, length) <= blockSize
  {
    var size := ClampLength(MAX_LARGE_FLAT_SIZE, length) + FLAT_OVERHEAD;
    var k := BlockExponent(blockSize);
    PowerIsStep(blockSize, k, size);
    RoundUpForTagIsLeast(size, blockSize);
  }

  // ----- CreateWithDefaultLimit -----

  const INLINE_CAPACITY: nat := 15

  // No node at all for what fits inline.
  function DefaultSize(capacity: nat): nat
  {
    if capacity > INLINE_CAPACITY then NewSize(MAX_FLAT_SIZE, capacity) else 0
  }

  function DefaultCapacity(capacity: nat): nat
  {
    if capacity > INLINE_CAPACITY then TagToLength(NewTag(MAX_FLAT_SIZE, capacity)) else INLINE_CAPACITY
  }

  lemma DefaultLimitKept(capacity: nat)
    ensures Min(4083, capacity) <= DefaultCapacity(capacity) <= 4083 && DefaultSize(capacity) <= 4096
    ensures if capacity > 15 then DefaultSize(capacity) == DefaultCapacity(capacity) + 13
            else DefaultSize(capacity) == 0 && DefaultCapacity(capacity) == 15
  {
    NewKeepsSize(MAX_FLAT_SIZE, capacity);
  }

  // No size that a tag expresses is smaller and still large enough.
  lemma DefaultIsLeast(capacity: nat, tag: nat)
    requires capacity > 15 && 6 <= tag <= 248 && TagToLength(tag) >= Min(4083, capacity)
    ensures DefaultSize(capacity) <= TagToAllocatedSize(tag)
  {
    NewIsLeast(MAX_FLAT_SIZE, capacity, tag);
  }

  // For a capacity up to the default limit the documentation promises the same buffer with a
  // custom limit. That is so exactly for a capacity that does not fit inline and that the block,
  // or the smallest node, can hold, where the length does not wrap around.
  lemma SameAsDefault(blockSize: nat, capacity: nat, length: nat)
    requires HasSingleBit(blockSize) && IsAsked(blockSize, capacity, length) && capacity <= DEFAULT_LIMIT
    ensures NewSize(MAX_LARGE_FLAT_SIZE, length) == DefaultSize(capacity) <==>
      && blockSize >= 16 && INLINE_CAPACITY < capacity
      && (capacity + FLAT_OVERHEAD <= blockSize || capacity <= MIN_FLAT_LENGTH)
  {
    SmallestAtLeast(length);
    if blockSize < 16 {
      CustomAllocates(blockSize, capacity, length);
      DefaultLimitKept(capacity);
    } else if capacity + FLAT_OVERHEAD > blockSize {
      NewKeepsSize(MAX_FLAT_SIZE, capacity);
      SmallBlockSize(blockSize, capacity, length);
      if capacity <= MIN_FLAT_LENGTH { SmallestNode(capacity); }
    } else {
      SameClamp(capacity);
    }
  }

  // A capacity that the block has no room for gets the block, or the smallest node.
  lemma SmallBlockSize(blockSize: nat, capacity: nat, length: nat)
    requires HasSingleBit(blockSize) && blockSize >= 16 && IsAsked(blockSize, capacity, length)
    requires capacity <= DEFAULT_LIMIT && capacity + FLAT_OVERHEAD > blockSize
    ensures NewSize(MAX_LARGE_FLAT_SIZE, length) == if blockSize < 32 then MIN_FLAT_SIZE else blockSize
  {
    if blockSize < 32 {
      PowersApart16(blockSize);
      SmallestNode(length);
    } else {
      PowerAllocates(blockSize);
    }
  }

  // The documentation guarantees at least the requested capacity. That is so exactly where the
  // block, or the smallest node, can hold it, or where the length wraps around.
  lemma CapacityGuaranteed(blockSize: nat, capacity: nat, length: nat)
    requires HasSingleBit(blockSize) && IsAsked(blockSize, capacity, length) && capacity <= DEFAULT_LIMIT
    ensures TagToLength(NewTag(MAX_LARGE_FLAT_SIZE, length)) >= capacity <==>
      blockSize < 16 || capacity + FLAT_OVERHEAD <= blockSize || capacity <= MIN_FLAT_LENGTH
  {
    NewKeepsSize(MAX_LARGE_FLAT_SIZE, length);
    SmallestAtLeast(length);
    if blockSize < 16 {
      CustomAllocates(blockSize, capacity, length);
    } else if capacity + FLAT_OVERHEAD > blockSize {
      SmallBlockSize(blockSize, capacity, length);
    }
  }

  lemma SameClamp(length: nat)
    requires length <= DEFAULT_LIMIT
    ensures NewSize(MAX_LARGE_FLAT_SIZE, length) == NewSize(MAX_FLAT_SIZE, length)
  {
    assert ClampLength(MAX_LARGE_FLAT_SIZE, length) == ClampLength(MAX_FLAT_SIZE, length);
  }

  lemma SmallestAtLeast(length: nat)
    ensures NewSize(MAX_LARGE_FLAT_SIZE, length) >= MIN_FLAT_SIZE
  {
    NewKeepsSize(MAX_LARGE_FLAT_SIZE, length);
    PlainSize(NewTag(MAX_LARGE_FLAT_SIZE, length));
  }

  // A node of the given size, which holds `payload` bytes: how it is bounded by the block size.
  ghost predicate KeepsLimits(blockSize: nat, capacity: nat, size: nat, payload: nat)
  {
    && payload + 13 == size
    && (payload <= MaximumPayload(blockSize) <==> blockSize != 16)
    && (size <= blockSize <==> blockSize >= 32)
    && (capacity >= blockSize ==> (size == blockSize <==> 32 <= blockSize <= 65536))
  }

  // Up to the default limit: whether it holds the capacity, and whether it is the default node.
  ghost predicate ServesSmall(blockSize: nat, capacity: nat, size: nat, payload: nat)
  {
    && (payload >= capacity <==> blockSize < 16 || capacity + 13 <= blockSize || capacity <= 19)
    && (size == DefaultSize(capacity) <==>
          blockSize >= 16 && 15 < capacity && (capacity + 13 <= blockSize || capacity <= 19))
  }

  // Above it: a power of two, the one 13 to 141 bytes above the capacity if there is one, and
  // otherwise the greatest that is not above.
  ghost predicate ServesLarge(capacity: nat, size: nat, payload: nat)
  {
    && HasSingleBit(size)
    && (payload >= capacity <==> exists k: nat :: 13 <= Pow2(k) - capacity <= 141)
    && (payload >= capacity ==> size <= capacity + 141)
    && (payload < capacity ==> size <= capacity < 2 * size)
  }

  // The node of a buffer with a custom limit.
  lemma CustomNode(blockSize: nat, capacity: nat, length: nat, size: nat, payload: nat)
    requires HasSingleBit(blockSize) && IsAsked(blockSize, capacity, length)
    requires size == NewSize(MAX_LARGE_FLAT_SIZE, length) && payload == TagToLength(NewTag(MAX_LARGE_FLAT_SIZE, length))
    ensures KeepsLimits(blockSize, capacity, size, payload)
    ensures capacity <= 4083 ==> ServesSmall(blockSize, capacity, size, payload)
    ensures 4083 < capacity && capacity + 13 < Min(blockSize, 65536) ==> ServesLarge(capacity, size, payload)
  {
    CustomAllocates(blockSize, capacity, length);
    PayloadKept(blockSize, capacity, length);
    NewKeepsSize(MAX_LARGE_FLAT_SIZE, length);
    if capacity <= 4083 {
      CapacityGuaranteed(blockSize, capacity, length);
      SameAsDefault(blockSize, capacity, length);
    } else if capacity + 13 < Min(blockSize, 65536) {
      LargeNode(blockSize, capacity, length);
    }
  }

  lemma LargeNode(blockSize: nat, capacity: nat, length: nat)
    requires HasSingleBit(blockSize) && IsAsked(blockSize, capacity, length)
    requires 4083 < capacity && capacity + 13 < Min(blockSize, 65536)
    ensures ServesLarge(capacity, length + 13, length)
  {
    LengthAsked(blockSize, capacity, length);
  }

  // A block of 64 bytes for 100 bytes: CreateWithDefaultLimit serves them, this does not.
  lemma SmallBlockFallsShort()
    ensures HasSingleBit(64) && IsAsked(64, 100, 51)
    ensures TagToLength(NewTag(MAX_LARGE_FLAT_SIZE, 51)) == 51 && DefaultCapacity(100) >= 100
  {
    Pow2Values();
    PowerHasSingleBit(6);
    PowerAllocates(64);
    NewKeepsSize(MAX_LARGE_FLAT_SIZE, 51);
    DefaultLimitKept(100);
  }
}
