// Flat nodes (absl/strings/internal/cord_rep_flat.h): the allocated size of a node is kept in its
// tag, an 8-bit number, with a granularity that grows with the size.
module CordRepFlat {
  import opened Bits

  const FLAT_OVERHEAD: nat := 13
  const MIN_FLAT_SIZE: nat := 32
  const MAX_FLAT_SIZE: nat := 4096
  const MAX_FLAT_LENGTH: nat := MAX_FLAT_SIZE - FLAT_OVERHEAD
  const MIN_FLAT_LENGTH: nat := MIN_FLAT_SIZE - FLAT_OVERHEAD
  const MAX_LARGE_FLAT_SIZE: nat := 256 * 1024

  const FLAT: nat := 6
  const MAX_FLAT_TAG: nat := 248
  const TAG_BASE: nat := FLAT - 4

  // size_t and uint8_t
  const SIZE_RANGE: nat := 0x1_0000_0000_0000_0000

  function ToSize(x: int): nat
  {
    x % SIZE_RANGE
  }

  function ToByte(x: int): nat
  {
    x % 256
  }

  function AllocatedSizeToTag(size: nat): nat
  {
    ToByte(if size <= 512 then TAG_BASE + size / 8
           else if size <= 8192 then TAG_BASE + 512 / 8 + size / 64 - 512 / 64
           else TAG_BASE + 512 / 8 + (8192 - 512) / 64 + size / 4096 - 8192 / 4096)
  }

  function TagToAllocatedSize(tag: nat): nat
  {
    ToSize(if tag <= TAG_BASE + 512 / 8 then tag * 8 - TAG_BASE * 8
           else if tag <= TAG_BASE + 512 / 8 + (8192 - 512) / 64 then
             512 + tag * 64 - TAG_BASE * 64 - 512 / 8 * 64
           else
             8192 + tag * 4096 - TAG_BASE * 4096 - (512 / 8 + (8192 - 512) / 64) * 4096)
  }

  function TagToLength(tag: nat): nat
  {
    ToSize(TagToAllocatedSize(tag) - FLAT_OVERHEAD)
  }

  predicate IsFlatTag(tag: nat)
  {
    FLAT <= tag <= MAX_FLAT_TAG
  }

  // Rounding up by a mask; the negated granularity wraps around.
  function RoundUp(n: nat, m: nat): nat
  {
    BitAnd(ToSize(n + m - 1), ToSize(0 - m))
  }

  function Granularity(size: nat): nat
  {
    if size <= 512 then 8 else if size <= 8192 then 64 else 4096
  }

  // x is a multiple of the granularity at `size`.
  predicate IsStep(x: nat, size: nat)
  {
    if size <= 512 then x % 8 == 0 else if size <= 8192 then x % 64 == 0 else x % 4096 == 0
  }

  function RoundUpForTag(size: nat): nat
  {
    RoundUp(size, Granularity(size))
  }

  // ----- Rounding -----

  // For a power of two the mask removes the remainder.
  lemma RoundUpMasks(n: nat, m: nat, k: nat)
    requires 0 < k < 64 && IsPower(m, k) && n + m <= SIZE_RANGE
    ensures RoundUp(n, m) == (n + m - 1) - (n + m - 1) % m
  {
    var x := n + m - 1;
    Pow2Values();
    Pow2Monotone(k, 64);
    NoWrap(x);
    Negated(m);
    AndHighMask(x, k, 64);
  }

  // So RoundUp gives the least multiple that is large enough.
  lemma RoundUpIsLeast(n: nat, m: nat, k: nat, j: nat)
    requires 0 < k < 64 && IsPower(m, k) && n + m <= SIZE_RANGE
    ensures n <= RoundUp(n, m) < n + m && RoundUp(n, m) % m == 0
    ensures n <= j * m ==> RoundUp(n, m) <= j * m
  {
    RoundUpMasks(n, m, k);
    Rounding(n, m, j);
  }

  lemma NoWrap(x: nat)
    requires x < SIZE_RANGE
    ensures ToSize(x) == x
  {
  }

  lemma Negated(m: nat)
    requires 0 < m < SIZE_RANGE
    ensures ToSize(0 - m) == SIZE_RANGE - m
  {
    DivModUnique(0 - m, SIZE_RANGE, -1, SIZE_RANGE - m);
  }

  lemma Rounding(n: int, m: int, j: int)
    requires m > 0
    ensures var x := n + m - 1;
            && n <= x - x % m < n + m
            && (x - x % m) % m == 0
            && (n <= j * m ==> x - x % m <= j * m)
  {
    var x := n + m - 1;
    var q, r := x / m, x % m;
    assert x == q * m + r;
    DivModUnique(q * m, m, q, 0);
    if q <= j {
      MulAtMost(q, j, m);
    } else {
      MulAtMost(j + 1, q, m);
    }
  }

  lemma RoundUpForTagIsLeast(size: nat, least: nat)
    requires size <= least <= MAX_LARGE_FLAT_SIZE && IsStep(least, size)
    ensures size <= RoundUpForTag(size) <= least
    ensures IsStep(RoundUpForTag(size), size)
  {
    Pow2Values();
    Pow2Add(6, 6);
    if size <= 512 {
      RoundUpIsLeast(size, 8, 3, least / 8);
    } else if size <= 8192 {
      RoundUpIsLeast(size, 64, 6, least / 64);
    } else {
      RoundUpIsLeast(size, 4096, 12, least / 4096);
    }
  }

  // ----- Sizes and tags -----

  lemma PlainSize(tag: nat)
    requires IsFlatTag(tag)
    ensures TagToAllocatedSize(tag) ==
      if tag <= 66 then 8 * (tag - 2) else if tag <= 186 then 64 * (tag - 58) else 4096 * (tag - 184)
    ensures MIN_FLAT_SIZE <= TagToAllocatedSize(tag) <= MAX_LARGE_FLAT_SIZE
  {
  }

  lemma PlainTag(size: nat)
    requires MIN_FLAT_SIZE <= size <= MAX_LARGE_FLAT_SIZE
    ensures AllocatedSizeToTag(size) ==
      if size <= 512 then 2 + size / 8 else if size <= 8192 then 58 + size / 64 else 184 + size / 4096
    ensures IsFlatTag(AllocatedSizeToTag(size))
  {
  }

  // Every tag stands for a size of its own.
  lemma TagReadsBack(tag: nat)
    requires IsFlatTag(tag)
    ensures AllocatedSizeToTag(TagToAllocatedSize(tag)) == tag
  {
    PlainSize(tag);
    PlainTag(TagToAllocatedSize(tag));
  }

  // A size is stored rounded down to the next size that a tag can express.
  lemma SizeRoundsDown(size: nat, tag: nat)
    requires MIN_FLAT_SIZE <= size <= MAX_LARGE_FLAT_SIZE && IsFlatTag(tag)
    ensures IsFlatTag(AllocatedSizeToTag(size))
    ensures TagToAllocatedSize(AllocatedSizeToTag(size)) <= size
    ensures TagToAllocatedSize(tag) <= size ==> tag <= AllocatedSizeToTag(size)
  {
    PlainTag(size);
    PlainSize(AllocatedSizeToTag(size));
    PlainSize(tag);
  }

  // Rounding up stays in the range of sizes with one granularity.
  lemma RoundUpStays(size: nat)
    requires size <= MAX_LARGE_FLAT_SIZE
    ensures size <= RoundUpForTag(size)
    ensures RoundUpForTag(size) <= if size <= 512 then 512 else if size <= 8192 then 8192 else MAX_LARGE_FLAT_SIZE
    ensures IsStep(RoundUpForTag(size), size)
  {
    RoundUpForTagIsLeast(size, if size <= 512 then 512 else if size <= 8192 then 8192 else MAX_LARGE_FLAT_SIZE);
  }

  // A size rounded up for a tag survives the way through the tag.
  lemma RoundedSizeReadsBack(size: nat)
    requires MIN_FLAT_SIZE <= size <= MAX_LARGE_FLAT_SIZE
    ensures size <= RoundUpForTag(size) <= MAX_LARGE_FLAT_SIZE
    ensures IsFlatTag(AllocatedSizeToTag(RoundUpForTag(size)))
    ensures TagToAllocatedSize(AllocatedSizeToTag(RoundUpForTag(size))) == RoundUpForTag(size)
  {
    var r := RoundUpForTag(size);
    RoundUpStays(size);
    PlainTag(r);
    PlainSize(AllocatedSizeToTag(r));
  }

  // The sizes that tags express are multiples of the granularity at any size not above them.
  lemma TagIsStep(size: nat, tag: nat)
    requires IsFlatTag(tag) && size <= TagToAllocatedSize(tag)
    ensures IsStep(TagToAllocatedSize(tag), size)
  {
    PlainSize(tag);
  }

  // No smaller size that a tag can express would do.
  lemma RoundedSizeIsLeast(size: nat, tag: nat)
    requires MIN_FLAT_SIZE <= size <= MAX_LARGE_FLAT_SIZE && IsFlatTag(tag)
    requires size <= TagToAllocatedSize(tag)
    ensures RoundUpForTag(size) <= TagToAllocatedSize(tag)
  {
    PlainSize(tag);
    TagIsStep(size, tag);
    RoundUpForTagIsLeast(size, TagToAllocatedSize(tag));
  }

  // ----- Creating nodes -----

  // NewImpl: the length asked for, brought between the least and the greatest one.
  function ClampLength(maxFlatSize: nat, len: nat): nat
    requires maxFlatSize == MAX_FLAT_SIZE || maxFlatSize == MAX_LARGE_FLAT_SIZE
  {
    if len <= MIN_FLAT_LENGTH then MIN_FLAT_LENGTH
    else if len > maxFlatSize - FLAT_OVERHEAD then maxFlatSize - FLAT_OVERHEAD
    else len
  }

  // The size that is allocated.
  function NewSize(maxFlatSize: nat, len: nat): nat
    requires maxFlatSize == MAX_FLAT_SIZE || maxFlatSize == MAX_LARGE_FLAT_SIZE
  {
    RoundUpForTag(ClampLength(maxFlatSize, len) + FLAT_OVERHEAD)
  }

  function NewTag(maxFlatSize: nat, len: nat): nat
    requires maxFlatSize == MAX_FLAT_SIZE || maxFlatSize == MAX_LARGE_FLAT_SIZE
  {
    AllocatedSizeToTag(NewSize(maxFlatSize, len))
  }

  lemma LengthOfTag(tag: nat)
    requires IsFlatTag(tag)
    ensures TagToLength(tag) == TagToAllocatedSize(tag) - FLAT_OVERHEAD >= MIN_FLAT_LENGTH
  {
    PlainSize(tag);
    NoWrap(TagToAllocatedSize(tag) - FLAT_OVERHEAD);
  }

  lemma NewSizeBound(maxFlatSize: nat, len: nat)
    requires maxFlatSize == MAX_FLAT_SIZE || maxFlatSize == MAX_LARGE_FLAT_SIZE
    ensures NewSize(maxFlatSize, len) <= maxFlatSize
  {
    var size := ClampLength(maxFlatSize, len) + FLAT_OVERHEAD;
    RoundUpStays(size);
    if maxFlatSize == MAX_FLAT_SIZE && 512 < size {
      RoundUpForTagIsLeast(size, MAX_FLAT_SIZE);
    }
  }

  lemma NewTagReadsBack(maxFlatSize: nat, len: nat)
    requires maxFlatSize == MAX_FLAT_SIZE || maxFlatSize == MAX_LARGE_FLAT_SIZE
    ensures IsFlatTag(NewTag(maxFlatSize, len))
    ensures TagToAllocatedSize(NewTag(maxFlatSize, len)) == NewSize(maxFlatSize, len)
    ensures ClampLength(maxFlatSize, len) + FLAT_OVERHEAD <= NewSize(maxFlatSize, len)
  {
    RoundedSizeReadsBack(ClampLength(maxFlatSize, len) + FLAT_OVERHEAD);
  }

  // The tag of a new node gives the size that was allocated for it, which a sized delete passes
  // on, and the node holds the length asked for, up to the greatest.
  lemma NewKeepsSize(maxFlatSize: nat, len: nat)
    requires maxFlatSize == MAX_FLAT_SIZE || maxFlatSize == MAX_LARGE_FLAT_SIZE
    ensures var t := NewTag(maxFlatSize, len);
            && IsFlatTag(t)
            && TagToAllocatedSize(t) == NewSize(maxFlatSize, len) <= maxFlatSize
            && TagToLength(t) == NewSize(maxFlatSize, len) - FLAT_OVERHEAD
            && (if len <= maxFlatSize - FLAT_OVERHEAD then len else maxFlatSize - FLAT_OVERHEAD) <= TagToLength(t)
  {
    NewTagReadsBack(maxFlatSize, len);
    NewSizeBound(maxFlatSize, len);
    LengthOfTag(NewTag(maxFlatSize, len));
  }

  // No tag expresses a smaller node that holds the length asked for, up to the greatest.
  lemma NewIsLeast(maxFlatSize: nat, len: nat, tag: nat)
    requires maxFlatSize == MAX_FLAT_SIZE || maxFlatSize == MAX_LARGE_FLAT_SIZE
    requires IsFlatTag(tag)
    requires (if len <= maxFlatSize - FLAT_OVERHEAD then len else maxFlatSize - FLAT_OVERHEAD) <= TagToLength(tag)
    ensures NewSize(maxFlatSize, len) <= TagToAllocatedSize(tag)
  {
    LengthOfTag(tag);
    RoundedSizeIsLeast(ClampLength(maxFlatSize, len) + FLAT_OVERHEAD, tag);
  }

  lemma ExactSize(size: nat)
    requires MIN_FLAT_SIZE <= size <= MAX_LARGE_FLAT_SIZE && IsStep(size, size)
    ensures NewSize(MAX_LARGE_FLAT_SIZE, size - FLAT_OVERHEAD) == size
  {
    RoundUpForTagIsLeast(size, size);
  }

  lemma PowerRange(k: nat)
    requires 5 <= k <= 18
    ensures MIN_FLAT_SIZE <= Pow2(k) <= MAX_LARGE_FLAT_SIZE
  {
    Pow2Values();
    Pow2Add(16, 2);
    Pow2Monotone(5, k);
    Pow2Monotone(k, 18);
  }

  // A power of two is allocated as it is.
  lemma PowerKeepsSize(size: nat, k: nat)
    requires 5 <= k <= 18 && IsPower(size, k)
    ensures MIN_FLAT_SIZE <= size <= MAX_LARGE_FLAT_SIZE
    ensures NewSize(MAX_LARGE_FLAT_SIZE, size - FLAT_OVERHEAD) == size
  {
    PowerRange(k);
    PowerIsStep(size, k, size);
    ExactSize(size);
  }

  // A power of two is a multiple of the granularity at any size not above it.
  lemma PowerIsStep(x: nat, k: nat, size: nat)
    requires 3 <= k <= 18 && IsPower(x, k) && size <= x
    ensures IsStep(x, size)
  {
    Pow2Values();
    Pow2Add(6, 3);
    Pow2Add(6, 6);
    Pow2Add(6, 7);
    if size <= 512 {
      PowerDivides(k, 3);
    } else if size <= 8192 {
      if k < 9 { Pow2Monotone(k, 9); }
      PowerDivides(k, 6);
    } else {
      if k < 13 { Pow2Monotone(k, 13); }
      PowerDivides(k, 12);
    }
  }

  lemma PowerDivides(k: nat, j: nat)
    requires j <= k
    ensures Pow2(k) % Pow2(j) == 0
  {
    Pow2Add(k - j, j);
    DivModUnique(Pow2(k), Pow2(j), Pow2(k - j), 0);
  }
}
