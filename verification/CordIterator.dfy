// Reading a Cord: CordRepBtreeReader (absl/strings/internal/cord_rep_btree_reader.h) and the
// chunk and character iterators of absl/strings/cord.h.
module CordIterator {
  import opened CordRep
  import opened CordNavigator
  import opened Options

  // ----- The reader of a B-tree -----

  class CordRepBtreeReader {
    var remaining: int
    const navigator: CordRepBtreeNavigator
    ghost const Repr: set<object>

    ghost predicate Valid()
      reads Repr
    {
      && Repr == {this, navigator, navigator.index, navigator.node}
      && navigator.Valid()
    }

    predicate IsEmpty()
      reads navigator
    {
      navigator.IsEmpty()
    }

    ghost function Tree(): Rep
      requires Valid() && !IsEmpty()
      reads Repr
    {
      navigator.Tree()
    }

    // `remaining` counts the bytes behind the current data edge.
    ghost predicate Synced()
      requires Valid() && !IsEmpty()
      reads Repr
    {
      |Flat(navigator.Passed())| + |navigator.Current().bytes| + remaining == Length(Tree())
    }

    constructor ()
      ensures Valid() && IsEmpty() && fresh(Repr)
    {
      remaining := 0;
      var n := new CordRepBtreeNavigator();
      navigator := n;
      Repr := {this, n, n.index, n.node};
    }

    method Init(tree: Rep) returns (chunk: Chunk)
      requires Valid() && IsNode(tree)
      modifies Repr
      ensures Valid() && !IsEmpty() && Tree() == tree && Synced()
      ensures navigator.Passed() == [] && chunk == navigator.Current().bytes
    {
      var edge := navigator.Init(tree, true);
      remaining := tree.length - |edge.bytes|;
      chunk := edge.bytes;
    }

    // The next data edge; empty once the last one was returned, or after a seek past the end.
    method Next() returns (chunk: Chunk)
      requires Valid() && !IsEmpty() && (remaining == 0 || Synced())
      modifies Repr
      ensures Valid() && !IsEmpty() && Tree() == old(Tree()) && (old(Synced()) ==> Synced())
      ensures chunk == "" <==> old(remaining) == 0
      ensures old(Synced()) ==>
        (chunk == "" <==> old(navigator.Passed()) + [old(navigator.Current()).bytes] == Chunks(Tree()))
      ensures chunk != "" ==>
        && chunk == navigator.Current().bytes
        && navigator.Passed() == old(navigator.Passed()) + [old(navigator.Current()).bytes]
      ensures chunk == "" ==>
        navigator.Passed() == old(navigator.Passed()) && navigator.Current() == old(navigator.Current())
    {
      ghost var passed, current := navigator.Passed(), navigator.Current().bytes;
      PassedLength(Tree(), passed, current);
      if remaining == 0 {
        return "";
      }
      var edge := navigator.Next();
      remaining := remaining - |edge.value.bytes|;
      chunk := edge.value.bytes;
      FlatAppend(passed, [current]);
      FlatOne(current);
    }

    // The rest of the data edge that holds the byte at `offset`; empty past the end.
    method Seek(offset: nat) returns (chunk: Chunk)
      requires Valid() && !IsEmpty()
      modifies Repr
      ensures Valid() && !IsEmpty() && Tree() == old(Tree())
      ensures chunk == "" <==> offset >= Length(Tree())
      ensures chunk == "" ==> remaining == 0
      ensures chunk != "" ==>
        && Synced()
        && |chunk| <= |navigator.Current().bytes|
        && chunk == navigator.Current().bytes[|navigator.Current().bytes| - |chunk|..]
        && |Flat(navigator.Passed())| + |navigator.Current().bytes| - |chunk| == offset
    {
      var position := navigator.Seek(offset);
      if position.None? {
        remaining := 0;
        return "";
      }
      chunk := position.value.edge.bytes[position.value.offset..];
      var total := TreeLength();
      remaining := total - offset - |chunk|;
    }

    // length()
    method TreeLength() returns (n: nat)
      requires Valid() && !IsEmpty()
      ensures n == Length(Tree())
    {
      n := Length(navigator.node[navigator.height]);
    }
  }

  // The bytes up to the end of the current data edge are all bytes at the last one only.
  lemma PassedLength(tree: Rep, passed: seq<Chunk>, current: Chunk)
    requires IsNode(tree) && passed + [current] <= Chunks(tree)
    ensures |Flat(passed)| + |current| <= Length(tree)
    ensures |Flat(passed)| + |current| == Length(tree) <==> passed + [current] == Chunks(tree)
  {
    var chunks := Chunks(tree);
    var n := |passed| + 1;
    LengthIsContent(tree);
    ChunksNonEmpty(tree);
    FlatAppend(passed, [current]);
    FlatOne(current);
    assert chunks[..n] == passed + [current];
    assert chunks[..|chunks|] == chunks;
    if n < |chunks| {
      FlatTake(chunks, n, |chunks|);
    }
  }

  // ----- Cords -----

  // A short cord holds its bytes itself; a longer one refers to a tree, possibly under a checksum
  // node, which is the only node that may stand for no bytes.
  datatype Cord = Inline(data: string) | Tree(rep: Rep)

  ghost predicate ValidCord(c: Cord)
  {
    match c
    case Inline(_) => true
    case Tree(Crc(None)) => true
    case Tree(Crc(Some(child))) => WellFormed(child)
    case Tree(rep) => WellFormed(rep)
  }

  function SkipCrcNode(rep: Rep): Rep
  {
    if rep.Crc? && rep.child.Some? then rep.child.value else rep
  }

  // One data edge as the whole tree.
  predicate IsLeafCord(c: Cord)
  {
    c.Tree? && SkipCrcNode(c.rep).Data?
  }

  ghost function CordChunks(c: Cord): seq<Chunk>
    requires ValidCord(c)
  {
    match c
    case Inline(data) => if data == "" then [] else [data]
    case Tree(rep) => if Length(rep) == 0 then [] else Chunks(SkipCrcNode(rep))
  }

  lemma CordLength(c: Cord)
    requires ValidCord(c)
    ensures |Flat(CordChunks(c))| == if c.Inline? then |c.data| else Length(c.rep)
    ensures c.Inline? ==> CordChunks(c) == if c.data == "" then [] else [c.data]
    ensures c.Tree? && Length(c.rep) > 0 ==>
      WellFormed(SkipCrcNode(c.rep)) && CordChunks(c) == Chunks(SkipCrcNode(c.rep))
    ensures c.Tree? && Length(c.rep) == 0 ==> CordChunks(c) == [] && !IsLeafCord(c)
  {
    if c.Inline? {
      FlatOne(c.data);
    } else if Length(c.rep) > 0 {
      LengthIsContent(SkipCrcNode(c.rep));
    }
  }

  // Behind the rest of its chunk a position continues at the start of the next chunk.
  lemma NextChunk(chunks: seq<Chunk>, p: nat, s: nat)
    requires IsPosition(chunks, p, s)
    ensures ByteOffset(chunks, p, s) + |chunks[p][s..]| == ByteOffset(chunks, p + 1, 0)
    ensures ByteOffset(chunks, p + 1, 0) <= |Flat(chunks)|
    ensures ByteOffset(chunks, p + 1, 0) == |Flat(chunks)| <==> Flat(chunks[p + 1..]) == ""
  {
    assert chunks[..p + 1] == chunks[..p] + [chunks[p]];
    FlatAppend(chunks[..p], [chunks[p]]);
    FlatOne(chunks[p]);
    assert chunks == chunks[..p + 1] + chunks[p + 1..];
    FlatAppend(chunks[..p + 1], chunks[p + 1..]);
  }

  lemma Passing(chunks: seq<Chunk>, p: nat, passed: seq<Chunk>, current: Chunk)
    requires passed + [current] <= chunks && |passed| == p
    ensures chunks[..p] == passed && chunks[p] == current && chunks[..p + 1] == passed + [current]
  {
    assert chunks[..p + 1] == passed + [current];
  }

  lemma Skip(s: string, r: nat, n: nat)
    requires n <= r <= |s|
    ensures s[|s| - r..][n..] == s[|s| - (r - n)..]
  {
  }

  class ChunkIterator {
    var currentChunk: Chunk
    var currentLeaf: Option<Rep>
    var bytesRemaining: nat
    const btreeReader: CordRepBtreeReader
    // The chunks of the cord iterated over.
    ghost const chunks: seq<Chunk>
    ghost const Repr: set<object>

    ghost predicate Valid()
      reads Repr
    {
      && Repr == {this} + btreeReader.Repr && this !in btreeReader.Repr
      && btreeReader.Valid()
      && bytesRemaining <= |Flat(chunks)|
      && (!btreeReader.IsEmpty() ==> chunks == Chunks(btreeReader.Tree()))
      && (btreeReader.IsEmpty() ==> |chunks| <= 1)
      && (bytesRemaining > 0 ==> InStep())
    }

    // The current chunk is a non-empty rest of the chunk the reader stands at. At the end of the
    // cord both may be stale.
    ghost predicate InStep()
      requires btreeReader.Valid()
      requires !btreeReader.IsEmpty() ==> chunks == Chunks(btreeReader.Tree())
      reads this, btreeReader.Repr
    {
      var p := Index();
      && p < |chunks| && 0 < |currentChunk| <= |chunks[p]|
      && currentChunk == chunks[p][|chunks[p]| - |currentChunk|..]
      && ByteOffset(chunks, p, |chunks[p]| - |currentChunk|) + bytesRemaining == |Flat(chunks)|
      && (!btreeReader.IsEmpty() ==> btreeReader.Synced() && btreeReader.navigator.Passed() == chunks[..p])
    }

    // What remains n bytes further on.
    lemma RemainsAfter(before: nat, n: nat)
      requires Valid() && n <= before <= |Flat(chunks)| && bytesRemaining == before - n
      ensures Remaining() == Flat(chunks)[|Flat(chunks)| - before..][n..]
    {
      Skip(Flat(chunks), before, n);
    }

    // How many chunks are passed.
    ghost function Index(): nat
      requires btreeReader.Valid()
      reads this, btreeReader.Repr
    {
      if btreeReader.IsEmpty() then 0 else |btreeReader.navigator.Passed()|
    }

    // The bytes still to be visited.
    ghost function Remaining(): (r: string)
      requires Valid()
      reads Repr
    {
      Flat(chunks)[|Flat(chunks)| - bytesRemaining..]
    }

    // The current chunk comes first.
    lemma CurrentIsNext()
      requires Valid()
      ensures bytesRemaining > 0 ==> currentChunk != "" && currentChunk <= Remaining()
    {
      if bytesRemaining > 0 {
        FlatFrom(chunks, Index(), |chunks[Index()]| - |currentChunk|);
      }
    }

    // Equality of iterators.
    predicate Equal(that: ChunkIterator)
      reads this, that
    {
      bytesRemaining == that.bytesRemaining
    }

    // The position at the first chunk of `cord`.
    constructor (cord: Cord)
      requires ValidCord(cord)
      ensures Valid() && fresh(Repr)
      ensures chunks == CordChunks(cord) && bytesRemaining == |Flat(chunks)|
      ensures currentLeaf == if IsLeafCord(cord) then Some(SkipCrcNode(cord.rep)) else None
    {
      CordLength(cord);
      var reader := new CordRepBtreeReader();
      btreeReader := reader;
      Repr := {this} + reader.Repr;
      currentLeaf := None;
      bytesRemaining := if cord.Inline? then |cord.data| else Length(cord.rep);
      currentChunk := if cord.Inline? then cord.data else "";
      chunks := CordChunks(cord);
      new;
      Start(cord);
    }

    // The rest of the construction.
    method Start(cord: Cord)
      requires Fresh() && ValidCord(cord) && chunks == CordChunks(cord)
      requires currentChunk == if cord.Inline? then cord.data else ""
      modifies Repr
      ensures Valid() && bytesRemaining == old(bytesRemaining)
      ensures currentLeaf == if IsLeafCord(cord) then Some(SkipCrcNode(cord.rep)) else None
    {
      CordLength(cord);
      if cord.Tree? {
        if bytesRemaining != 0 {
          InitTree(cord.rep);
        }
      } else {
        InlineValid(cord.data);
      }
    }

    // A short cord is its own only chunk.
    lemma InlineValid(data: string)
      requires Fresh() && currentChunk == data && chunks == if data == "" then [] else [data]
      ensures Valid()
    {
      FlatOne(data);
      assert chunks[..0] == [];
    }

    method InitTree(rep: Rep)
      requires Fresh() && WellFormed(SkipCrcNode(rep)) && chunks == Chunks(SkipCrcNode(rep))
      modifies Repr
      ensures Valid() && bytesRemaining == old(bytesRemaining)
      ensures currentLeaf == if SkipCrcNode(rep).Data? then Some(SkipCrcNode(rep)) else None
    {
      var tree := SkipCrcNode(rep);
      if tree.Btree? {
        InitBtree(tree);
      } else {
        InitLeaf(tree);
      }
    }

    // Nothing is set but the number of bytes.
    ghost predicate Fresh()
      reads Repr
    {
      && Repr == {this} + btreeReader.Repr && this !in btreeReader.Repr
      && btreeReader.Valid() && btreeReader.IsEmpty()
      && currentLeaf == None && bytesRemaining == |Flat(chunks)|
    }

    method InitBtree(tree: Rep)
      requires Fresh() && IsNode(tree) && chunks == Chunks(tree)
      modifies Repr
      ensures Valid() && bytesRemaining == old(bytesRemaining) && currentLeaf == None
    {
      currentChunk := btreeReader.Init(tree);
      Standing();
    }

    method InitLeaf(leaf: Rep)
      requires Fresh() && leaf.Data? && leaf.bytes != "" && chunks == [leaf.bytes]
      modifies this
      ensures Valid() && bytesRemaining == old(bytesRemaining) && currentLeaf == Some(leaf)
    {
      currentLeaf := Some(leaf);
      currentChunk := leaf.bytes;
      assert chunks[..0] == [];
    }

    // The reader stands at some chunk.
    ghost predicate Reading()
      reads Repr
    {
      && Repr == {this} + btreeReader.Repr && this !in btreeReader.Repr
      && btreeReader.Valid() && !btreeReader.IsEmpty() && btreeReader.Synced()
      && chunks == Chunks(btreeReader.Tree())
    }

    // The current chunk is a rest of that chunk, and the bytes remaining begin with it.
    lemma Standing()
      requires Reading()
      requires var current := btreeReader.navigator.Current().bytes;
               && 0 < |currentChunk| <= |current| && currentChunk == current[|current| - |currentChunk|..]
               && |Flat(btreeReader.navigator.Passed())| + |current| - |currentChunk| + bytesRemaining == |Flat(chunks)|
      ensures Valid()
    {
      var passed := btreeReader.navigator.Passed();
      Passing(chunks, |passed|, passed, btreeReader.navigator.Current().bytes);
    }

    // The bytes remaining begin behind the chunk where the reader stands.
    ghost predicate AtBoundary()
      reads Repr
    {
      && Reading()
      && |Flat(btreeReader.navigator.Passed() + [btreeReader.navigator.Current().bytes])| + bytesRemaining == |Flat(chunks)|
    }

    method AdvanceBtree()
      requires AtBoundary() && bytesRemaining > 0
      modifies `currentChunk, `bytesRemaining, btreeReader.Repr
      ensures Valid() && bytesRemaining == old(bytesRemaining)
    {
      currentChunk := btreeReader.Next();
      Standing();
    }

    // Where the current chunk ends, the next one begins; without a reader there is none.
    lemma ChunkEnd()
      requires Valid() && bytesRemaining > 0
      ensures |currentChunk| <= bytesRemaining
      ensures btreeReader.IsEmpty() ==> |currentChunk| == bytesRemaining
      ensures !btreeReader.IsEmpty() ==>
        var behind := Flat(btreeReader.navigator.Passed() + [btreeReader.navigator.Current().bytes]);
        Reading() && |behind| + (bytesRemaining - |currentChunk|) == |Flat(chunks)|
    {
      var p := Index();
      NextChunk(chunks, p, |chunks[p]| - |currentChunk|);
      if !btreeReader.IsEmpty() {
        Passing(chunks, p, btreeReader.navigator.Passed(), btreeReader.navigator.Current().bytes);
      }
    }

    // ++: continues at the next chunk.
    method Increment()
      requires Valid() && bytesRemaining > 0
      modifies `currentChunk, `bytesRemaining, btreeReader.Repr
      ensures Valid()
      ensures bytesRemaining == old(bytesRemaining) - |old(currentChunk)|
      ensures Remaining() == old(Remaining())[|old(currentChunk)|..]
    {
      ChunkEnd();
      ghost var before, n := bytesRemaining, |currentChunk|;
      bytesRemaining := bytesRemaining - |currentChunk|;
      MoveOn();
      RemainsAfter(before, n);
    }

    // The rest of ++: without a reader nothing can remain.
    method MoveOn()
      requires bytesRemaining > 0 ==> AtBoundary()
      requires bytesRemaining == 0 ==> Valid()
      modifies `currentChunk, `bytesRemaining, btreeReader.Repr
      ensures Valid() && bytesRemaining == old(bytesRemaining)
    {
      if bytesRemaining > 0 {
        if !btreeReader.IsEmpty() {
          AdvanceBtree();
        } else {
          assert false;
        }
      }
    }

    method RemoveChunkPrefix(n: nat)
      requires Valid() && n < |currentChunk| && n <= bytesRemaining
      modifies `currentChunk, `bytesRemaining
      ensures Valid()
      ensures bytesRemaining == old(bytesRemaining) - n
    {
      currentChunk := currentChunk[n..];
      bytesRemaining := bytesRemaining - n;
    }

    // The seek of AdvanceBytesBtree.
    method SeekBtree()
      requires Repr == {this} + btreeReader.Repr && this !in btreeReader.Repr
      requires btreeReader.Valid() && !btreeReader.IsEmpty()
      requires chunks == Chunks(btreeReader.Tree()) && 0 < bytesRemaining <= |Flat(chunks)|
      modifies `currentChunk, `bytesRemaining, btreeReader.Repr
      ensures Valid() && bytesRemaining == old(bytesRemaining)
    {
      LengthIsContent(btreeReader.Tree());
      var total := btreeReader.TreeLength();
      var offset := total - bytesRemaining;
      currentChunk := btreeReader.Seek(offset);
      Standing();
    }

    method AdvanceBytesBtree(n: nat)
      requires Valid() && !btreeReader.IsEmpty() && |currentChunk| <= n <= bytesRemaining && n > 0
      modifies `currentChunk, `bytesRemaining, btreeReader.Repr
      ensures Valid()
      ensures bytesRemaining == old(bytesRemaining) - n
      ensures bytesRemaining == 0 ==> currentChunk == ""
    {
      ChunkEnd();
      bytesRemaining := bytesRemaining - n;
      if bytesRemaining > 0 {
        if n == |currentChunk| {
          AdvanceBtree();
        } else {
          SeekBtree();
        }
      } else {
        currentChunk := "";
      }
    }

    // Skips n bytes: inside the current chunk, to the next one, or by seeking in the tree.
    method AdvanceBytes(n: nat)
      requires Valid() && n <= bytesRemaining
      modifies `currentChunk, `bytesRemaining, btreeReader.Repr
      ensures Valid()
      ensures bytesRemaining == old(bytesRemaining) - n
      ensures Remaining() == old(Remaining())[n..]
    {
      ghost var before := bytesRemaining;
      if n < |currentChunk| {
        RemoveChunkPrefix(n);
      } else if n != 0 {
        if !btreeReader.IsEmpty() {
          AdvanceBytesBtree(n);
        } else {
          ChunkEnd();
          bytesRemaining := 0;
        }
      }
      RemainsAfter(before, n);
    }
  }

  // Two iterators over the same cord with as many bytes left stand at the same place.
  lemma SamePlace(a: ChunkIterator, b: ChunkIterator)
    requires a.Valid() && b.Valid() && a.chunks == b.chunks
    requires a.Equal(b) && a.bytesRemaining > 0
    ensures a.Index() == b.Index() && a.currentChunk == b.currentChunk
  {
    var chunks, p, q := a.chunks, a.Index(), b.Index();
    PositionUnique(chunks, p, |chunks[p]| - |a.currentChunk|, q, |chunks[q]| - |b.currentChunk|);
  }

  lemma SameState(a: ChunkIterator, b: ChunkIterator)
    requires a.Valid() && b.Valid() && a.chunks == b.chunks && a.Equal(b)
    ensures a.Remaining() == b.Remaining()
    ensures a.bytesRemaining > 0 ==> a.Index() == b.Index() && a.currentChunk == b.currentChunk
  {
    if a.bytesRemaining > 0 {
      SamePlace(a, b);
    }
  }

  // Their readers stand at the same data edge.
  lemma SameEdge(a: ChunkIterator, b: ChunkIterator)
    requires a.Valid() && b.Valid() && a.chunks == b.chunks
    requires a.Equal(b) && a.bytesRemaining > 0
    requires !a.btreeReader.IsEmpty() && !b.btreeReader.IsEmpty()
    ensures a.btreeReader.navigator.Passed() == b.btreeReader.navigator.Passed()
    ensures a.btreeReader.navigator.Current() == b.btreeReader.navigator.Current()
  {
    SamePlace(a, b);
    var m, n := a.btreeReader.navigator, b.btreeReader.navigator;
    Passing(a.chunks, a.Index(), m.Passed(), m.Current().bytes);
    Passing(b.chunks, b.Index(), n.Passed(), n.Current().bytes);
  }

  class CharIterator {
    const chunkIterator: ChunkIterator
    ghost const Repr: set<object>

    ghost predicate Valid()
      reads Repr
    {
      Repr == chunkIterator.Repr && chunkIterator.Valid()
    }

    ghost function Remaining(): string
      requires Valid()
      reads Repr
    {
      chunkIterator.Remaining()
    }

    constructor (cord: Cord)
      requires ValidCord(cord)
      ensures Valid() && fresh(Repr)
      ensures chunkIterator.chunks == CordChunks(cord) && Remaining() == Flat(CordChunks(cord))
    {
      var it := new ChunkIterator(cord);
      chunkIterator := it;
      Repr := it.Repr;
    }

    // *it
    method Get() returns (c: char)
      requires Valid() && chunkIterator.bytesRemaining > 0
      ensures c == Remaining()[0]
    {
      chunkIterator.CurrentIsNext();
      c := chunkIterator.currentChunk[0];
    }

    // ++it
    method Increment()
      requires Valid() && chunkIterator.bytesRemaining > 0
      modifies Repr
      ensures Valid()
      ensures chunkIterator.bytesRemaining == old(chunkIterator.bytesRemaining) - 1
      ensures Remaining() == old(Remaining())[1..]
    {
      Skip(Flat(chunkIterator.chunks), chunkIterator.bytesRemaining, 1);
      if |chunkIterator.currentChunk| > 1 {
        chunkIterator.RemoveChunkPrefix(1);
      } else {
        chunkIterator.Increment();
      }
    }
  }

  // Cord::Advance
  method Advance(it: CharIterator, n: nat)
    requires it.Valid() && n <= it.chunkIterator.bytesRemaining
    modifies it.Repr
    ensures it.Valid() && it.chunkIterator.bytesRemaining == old(it.chunkIterator.bytesRemaining) - n
    ensures it.Remaining() == old(it.Remaining())[n..]
  {
    it.chunkIterator.AdvanceBytes(n);
  }

  method StepOver(it: CharIterator, n: nat)
    requires it.Valid() && n <= it.chunkIterator.bytesRemaining
    modifies it.Repr
    ensures it.Valid() && it.chunkIterator.bytesRemaining == old(it.chunkIterator.bytesRemaining) - n
    ensures it.Remaining() == old(it.Remaining())[n..]
  {
    Skip(Flat(it.chunkIterator.chunks), it.chunkIterator.bytesRemaining, n);
    var i := 0;
    while i < n
      invariant 0 <= i <= n && it.Valid()
      invariant it.chunkIterator.bytesRemaining == old(it.chunkIterator.bytesRemaining) - i
    {
      it.Increment();
      i := i + 1;
    }
  }

  // Skipping n bytes at once and stepping over n characters lead from the same place to the same
  // place.
  method SkipOrStep(skip: CharIterator, step: CharIterator, n: nat)
    requires skip.Valid() && step.Valid() && skip.Repr !! step.Repr
    requires skip.chunkIterator.chunks == step.chunkIterator.chunks
    requires skip.chunkIterator.Equal(step.chunkIterator) && n <= skip.chunkIterator.bytesRemaining
    modifies skip.Repr, step.Repr
    ensures skip.Valid() && step.Valid()
    ensures skip.chunkIterator.Equal(step.chunkIterator)
    ensures skip.Remaining() == step.Remaining() == old(skip.Remaining())[n..]
    ensures skip.chunkIterator.bytesRemaining > 0 ==>
      && skip.chunkIterator.currentChunk == step.chunkIterator.currentChunk
      && skip.chunkIterator.Index() == step.chunkIterator.Index()
  {
    Advance(skip, n);
    StepOver(step, n);
    SameState(skip.chunkIterator, step.chunkIterator);
  }

  // No chunk of a cord is empty.
  lemma CordChunksNonEmpty(c: Cord)
    requires ValidCord(c)
    ensures NonEmptyChunks(CordChunks(c))
  {
    if c.Tree? && Length(c.rep) > 0 {
      ChunksNonEmpty(SkipCrcNode(c.rep));
    }
  }

  ghost predicate NonEmptyChunks(chunks: seq<Chunk>)
  {
    forall i :: 0 <= i < |chunks| ==> chunks[i] != ""
  }

  // `visited` are the first chunks, and the bytes of the others are left.
  ghost predicate Visiting(it: ChunkIterator, visited: seq<Chunk>)
    reads it.Repr
  {
    && it.Valid() && NonEmptyChunks(it.chunks) && visited <= it.chunks
    && |Flat(visited)| + it.bytesRemaining == |Flat(it.chunks)|
  }

  // Such an iterator stands at the start of the next chunk, if there is one.
  lemma AtChunk(it: ChunkIterator, visited: seq<Chunk>)
    requires Visiting(it, visited)
    ensures it.bytesRemaining == 0 <==> visited == it.chunks
    ensures it.bytesRemaining > 0 ==> visited + [it.currentChunk] <= it.chunks
  {
    if it.bytesRemaining > 0 {
      var p := it.Index();
      NextWhole(it.chunks, visited, p, it.currentChunk);
    } else {
      VisitedAll(it.chunks, visited);
    }
  }

  lemma VisitedAll(chunks: seq<Chunk>, visited: seq<Chunk>)
    requires NonEmptyChunks(chunks) && visited <= chunks && |Flat(visited)| == |Flat(chunks)|
    ensures visited == chunks
  {
    assert chunks[..|chunks|] == chunks && chunks[..|visited|] == visited;
    if |visited| < |chunks| {
      FlatTake(chunks, |visited|, |chunks|);
    }
  }

  // A rest of a chunk that begins where the visited ones end is the whole next one.
  lemma NextWhole(chunks: seq<Chunk>, visited: seq<Chunk>, p: nat, current: Chunk)
    requires NonEmptyChunks(chunks) && visited <= chunks && |Flat(visited)| < |Flat(chunks)|
    requires p < |chunks| && 0 < |current| <= |chunks[p]| && current == chunks[p][|chunks[p]| - |current|..]
    requires ByteOffset(chunks, p, |chunks[p]| - |current|) == |Flat(visited)|
    ensures visited + [current] <= chunks
  {
    var n := |visited|;
    ProperPrefix(visited, chunks);
    PrefixNext(visited, chunks);
    PositionUnique(chunks, p, |chunks[p]| - |current|, n, 0);
    assert current == chunks[n];
  }

  lemma ProperPrefix<T>(a: seq<T>, b: seq<T>)
    requires a <= b && a != b
    ensures |a| < |b|
  {
  }

  lemma PrefixNext<T>(a: seq<T>, b: seq<T>)
    requires a <= b && |a| < |b|
    ensures b[..|a|] == a && a + [b[|a|]] <= b
  {
    assert b[..|a| + 1] == a + [b[|a|]];
  }

  // *it++: chunk after chunk is visited, in order and whole.
  method TakeChunk(it: ChunkIterator, ghost visited: seq<Chunk>) returns (chunk: Chunk)
    requires Visiting(it, visited) && it.bytesRemaining > 0
    modifies it.Repr
    ensures Visiting(it, visited + [chunk])
    ensures it.bytesRemaining < old(it.bytesRemaining)
  {
    AtChunk(it, visited);
    chunk := it.currentChunk;
    FlatAppend(visited, [chunk]);
    FlatOne(chunk);
    it.Increment();
  }

  // Iterating over the chunks of any cord from its beginning yields them all, in order and whole.
  method ReadChunks(cord: Cord) returns (list: seq<Chunk>)
    requires ValidCord(cord)
    ensures list == CordChunks(cord)
  {
    var it := new ChunkIterator(cord);
    CordChunksNonEmpty(cord);
    list := TakeChunks(it);
  }

  method TakeChunks(it: ChunkIterator) returns (list: seq<Chunk>)
    requires Visiting(it, [])
    modifies it.Repr
    ensures list == it.chunks
  {
    list := [];
    while it.bytesRemaining > 0
      invariant Visiting(it, list)
      decreases it.bytesRemaining
    {
      var chunk := TakeChunk(it, list);
      list := list + [chunk];
    }
    AtChunk(it, list);
  }

  lemma MoveOne(s: string, r: string)
    requires r != ""
    ensures s + [r[0]] + r[1..] == s + r
  {
  }

  // Reading character by character up to the end yields what remains.
  method ReadAll(it: CharIterator) returns (s: string)
    requires it.Valid()
    modifies it.Repr
    ensures it.Valid() && it.chunkIterator.bytesRemaining == 0
    ensures s == old(it.Remaining())
  {
    ghost var r, all := it.Remaining(), it.Remaining();
    s := "";
    while it.chunkIterator.bytesRemaining > 0
      invariant it.Valid() && r == it.Remaining() && |r| == it.chunkIterator.bytesRemaining
      invariant s + r == all
      decreases it.chunkIterator.bytesRemaining
    {
      var c := it.Get();
      it.Increment();
      MoveOne(s, r);
      s, r := s + [c], r[1..];
    }
  }

  // From its beginning, any cord is read as its whole content.
  method ReadCord(cord: Cord) returns (s: string)
    requires ValidCord(cord)
    ensures s == Flat(CordChunks(cord))
  {
    var it := new CharIterator(cord);
    s := ReadAll(it);
  }
}
