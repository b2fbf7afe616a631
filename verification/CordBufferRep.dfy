// CordBuffer (absl/strings/cord_buffer.h): a short buffer or a pointer to a flat node, told apart
// by the lowest bit.
module CordBufferRep {
  import opened Bits
  import opened CordRepFlat

  // ----- The two representations in sixteen bytes (little endian) -----

  type Byte = b: int | 0 <= b < 256

  type Rep = r: seq<Byte> | |r| == 16 witness seq(16, _ => 0)

  // The tag is the lowest bit of the first byte, the short length is the rest of it.
  predicate IsShort(r: Rep)
  {
    r[0] % 2 != 0
  }

  function ShortLength(r: Rep): nat
  {
    r[0] / 2
  }

  // As the code computes them.
  lemma TagBit(r: Rep)
    ensures IsShort(r) <==> BitAnd(r[0], 1) != 0
    ensures ShortLength(r) == Shr(r[0], 1)
  {
    AndLowMask(r[0], 1);
    ShrIsDivision(r[0], 1);
  }

  function ShortData(r: Rep): seq<Byte>
  {
    r[1..]
  }

  function SetShortLength(r: Rep, length: nat): Rep
  {
    r[0 := ToByte(2 * length + 1)]
  }

  function AddShortLength(r: Rep, n: nat): Rep
  {
    r[0 := ToByte(r[0] + ToByte(2 * n))]
  }

  const EMPTY: Rep := [1, 0, 0, 0, 0, 0, 0, 0, 0, 0, 0, 0, 0, 0, 0, 0]

  // A pointer in the first eight bytes, lowest byte first; the others are left as they are found.
  function OfPointer(p: nat, padding: seq<Byte>): Rep
    requires |padding| == 8
  {
    var p1 := p / 256;
    var p2 := p1 / 256;
    var p3 := p2 / 256;
    var p4 := p3 / 256;
    var p5 := p4 / 256;
    var p6 := p5 / 256;
    [p % 256, p1 % 256, p2 % 256, p3 % 256, p4 % 256, p5 % 256, p6 % 256, p6 / 256 % 256] + padding
  }

  function Pointer(r: Rep): nat
  {
    (r[0] as int) + 0x100 * (r[1] as int) + 0x1_0000 * (r[2] as int) + 0x100_0000 * (r[3] as int)
    + 0x1_0000_0000 * (r[4] as int) + 0x100_0000_0000 * (r[5] as int)
    + 0x1_0000_0000_0000 * (r[6] as int) + 0x100_0000_0000_0000 * (r[7] as int)
  }

  // A short length reads back, and the bytes stay.
  lemma ShortReadsBack(r: Rep, length: nat)
    requires length < 128
    ensures var s := SetShortLength(r, length);
            IsShort(s) && ShortLength(s) == length && ShortData(s) == ShortData(r)
  {
  }

  // Adding to a short length is setting the sum.
  lemma AddIsSet(r: Rep, n: nat)
    requires IsShort(r) && ShortLength(r) + n < 128
    ensures AddShortLength(r, n) == SetShortLength(r, ShortLength(r) + n)
  {
  }

  lemma LowestByte(p: nat)
    ensures p % 256 % 2 == p % 2
  {
  }

  // A pointer is told apart from short data by being even, and it reads back.
  lemma PointerReadsBack(p: nat, padding: seq<Byte>)
    requires p < SIZE_RANGE && |padding| == 8
    ensures IsShort(OfPointer(p, padding)) <==> p % 2 == 1
    ensures Pointer(OfPointer(p, padding)) == p
  {
    LowestByte(p);
  }
}
