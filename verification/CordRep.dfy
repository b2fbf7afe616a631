// Cord trees (absl/strings/internal/cord_internal.h, cord_rep_btree.h, cord_rep_crc.h) as
// values, and the flat list of chunks that a tree stands for.
module CordRep {
  import opened Options

  type Chunk = string

  const MAX_CAPACITY: nat := 6
  const MAX_DEPTH: nat := 12

  // A data edge (a flat, an external node or a substring of one), a B-tree node with its edges
  // at positions begin, ..., end - 1 of the array, or a checksum node around a tree.
  datatype Rep =
    | Data(bytes: Chunk)
    | Btree(length: nat, height: nat, begin: nat, end: nat, edges: seq<Rep>)
    | Crc(child: Option<Rep>)

  function Length(r: Rep): nat
  {
    match r
    case Data(bytes) => |bytes|
    case Btree(length, _, _, _, _) => length
    case Crc(child) => if child.Some? then Length(child.value) else 0
  }

  function LengthBelow(r: Rep, i: nat): nat
    requires r.Btree? && r.begin <= i <= |r.edges|
  {
    if i == r.begin then 0 else LengthBelow(r, i - 1) + Length(r.edges[i - 1])
  }

  // What CordRepBtree::IsValid checks, and that no data edge is empty.
  predicate WellFormed(r: Rep)
  {
    match r
    case Data(bytes) => bytes != ""
    case Btree(length, height, begin, end, edges) =>
      && |edges| == MAX_CAPACITY && begin < end <= MAX_CAPACITY && height < MAX_DEPTH
      && length == LengthBelow(r, end)
      && forall i :: begin <= i < end ==>
           && WellFormed(edges[i])
           && (if height == 0 then edges[i].Data? else edges[i].Btree? && edges[i].height == height - 1)
    case Crc(_) => false
  }

  predicate IsNode(r: Rep)
  {
    r.Btree? && WellFormed(r)
  }

  // ----- Content -----

  function Flat(chunks: seq<Chunk>): string
  {
    if chunks == [] then "" else Flat(chunks[..|chunks| - 1]) + chunks[|chunks| - 1]
  }

  // The chunks under the edges begin, ..., i - 1 of a node.
  function ChunksBelow(r: Rep, i: nat): seq<Chunk>
    requires IsNode(r) && r.begin <= i <= r.end
    decreases r, i
  {
    if i == r.begin then [] else ChunksBelow(r, i - 1) + Chunks(r.edges[i - 1])
  }

  // The data edges of a tree from left to right.
  function Chunks(r: Rep): seq<Chunk>
    requires WellFormed(r)
    decreases r, MAX_CAPACITY + 1
  {
    if r.Data? then [r.bytes] else ChunksBelow(r, r.end)
  }

  lemma {:induction false} FlatAppend(a: seq<Chunk>, b: seq<Chunk>)
    ensures Flat(a + b) == Flat(a) + Flat(b)
  {
    if b == [] {
      assert a + b == a;
    } else {
      var n := |b| - 1;
      assert (a + b)[..|a + b| - 1] == a + b[..n];
      FlatAppend(a, b[..n]);
    }
  }

  lemma FlatOne(c: Chunk)
    ensures Flat([c]) == c
  {
    assert [c][..0] == [];
  }

  // The stored lengths are the lengths of the content.
  lemma {:induction false} LengthIsContent(r: Rep)
    requires WellFormed(r)
    ensures |Flat(Chunks(r))| == Length(r)
    decreases r, MAX_CAPACITY + 1
  {
    if r.Data? {
      FlatOne(r.bytes);
    } else {
      LengthBelowIsContent(r, r.end);
    }
  }

  lemma {:induction false} LengthBelowIsContent(r: Rep, i: nat)
    requires IsNode(r) && r.begin <= i <= r.end
    ensures |Flat(ChunksBelow(r, i))| == LengthBelow(r, i)
    decreases r, i
  {
    if i > r.begin {
      LengthBelowIsContent(r, i - 1);
      LengthIsContent(r.edges[i - 1]);
      FlatAppend(ChunksBelow(r, i - 1), Chunks(r.edges[i - 1]));
    }
  }

  lemma {:induction false} ChunksNonEmpty(r: Rep)
    requires WellFormed(r)
    ensures Chunks(r) != [] && forall i :: 0 <= i < |Chunks(r)| ==> Chunks(r)[i] != ""
    decreases r, MAX_CAPACITY + 1
  {
    if r.Btree? {
      BelowNonEmpty(r, r.end);
      ChunksNonEmpty(r.edges[r.begin]);
      BelowPrefix(r, r.begin + 1, r.end);
    }
  }

  lemma {:induction false} BelowNonEmpty(r: Rep, i: nat)
    requires IsNode(r) && r.begin <= i <= r.end
    ensures forall k :: 0 <= k < |ChunksBelow(r, i)| ==> ChunksBelow(r, i)[k] != ""
    decreases r, i
  {
    if i > r.begin {
      BelowNonEmpty(r, i - 1);
      ChunksNonEmpty(r.edges[i - 1]);
    }
  }

  lemma {:induction false} BelowPrefix(r: Rep, i: nat, j: nat)
    requires IsNode(r) && r.begin <= i <= j <= r.end
    ensures ChunksBelow(r, i) <= ChunksBelow(r, j)
    decreases j
  {
    if i < j {
      BelowPrefix(r, i, j - 1);
    }
  }

  // ----- Positions in a list of chunks -----

  // p chunks are passed, s bytes of the next one too.
  ghost predicate IsPosition(chunks: seq<Chunk>, p: nat, s: nat)
  {
    p < |chunks| && s < |chunks[p]|
  }

  function ByteOffset(chunks: seq<Chunk>, p: nat, s: nat): nat
    requires p <= |chunks|
  {
    |Flat(chunks[..p])| + s
  }

  lemma {:induction false} FlatTake(chunks: seq<Chunk>, p: nat, q: nat)
    requires p < q <= |chunks|
    ensures |Flat(chunks[..p])| + |chunks[p]| <= |Flat(chunks[..q])|
    decreases q
  {
    assert chunks[..q][..q - 1] == chunks[..q - 1];
    if p < q - 1 {
      FlatTake(chunks, p, q - 1);
    }
  }

  // The byte offset determines the position.
  lemma PositionUnique(chunks: seq<Chunk>, p: nat, s: nat, q: nat, t: nat)
    requires IsPosition(chunks, p, s) && IsPosition(chunks, q, t)
    requires ByteOffset(chunks, p, s) == ByteOffset(chunks, q, t)
    ensures p == q && s == t
  {
    if p < q {
      FlatTake(chunks, p, q);
    } else if q < p {
      FlatTake(chunks, q, p);
    }
  }

  // What follows a position is the rest of its chunk and the later chunks.
  lemma FlatFrom(chunks: seq<Chunk>, p: nat, s: nat)
    requires IsPosition(chunks, p, s)
    ensures ByteOffset(chunks, p, s) <= |Flat(chunks)|
    ensures Flat(chunks)[ByteOffset(chunks, p, s)..] == chunks[p][s..] + Flat(chunks[p + 1..])
  {
    assert chunks == chunks[..p] + ([chunks[p]] + chunks[p + 1..]);
    FlatAppend(chunks[..p], [chunks[p]] + chunks[p + 1..]);
    FlatAppend([chunks[p]], chunks[p + 1..]);
    FlatOne(chunks[p]);
    assert Flat(chunks) == Flat(chunks[..p]) + chunks[p] + Flat(chunks[p + 1..]);
  }
}
