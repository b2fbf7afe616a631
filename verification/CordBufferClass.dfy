// CordBuffer (absl/strings/cord_buffer.h) as a class over a heap of flat nodes.
module CordBufferClass {
  import opened Bits
  import opened CordRepFlat
  import opened CordBufferLimits
  import opened CordBufferRep
  import opened CordBufferOwnership
  import opened Options

  // The memory that the buffers share. The allocator chooses the addresses; each method that
  // allocates is told the one it gets.
  class FlatHeap {
    var state: Heap

    constructor ()
      ensures state == EMPTY_HEAP
    {
      state := EMPTY_HEAP;
    }

    method Delete(p: nat)
      modifies this
      ensures state == CordBufferOwnership.Delete(old(state), p)
    {
      state := CordBufferOwnership.Delete(state, p);
    }
  }

  // A long buffer whose node is there and knows the size that was allocated for it.
  predicate HoldsNode(h: Heap, r: Rep)
  {
    !IsShort(r) && Pointer(r) in h.live && h.live[Pointer(r)].size == TagToAllocatedSize(h.live[Pointer(r)].tag)
  }

  class CordBuffer {
    var rep: Rep
    const heap: FlatHeap

    constructor (heap: FlatHeap)
      ensures this.heap == heap && rep == EMPTY
    {
      this.heap := heap;
      rep := EMPTY;
    }

    // A buffer for the node that CordRepFlat::New creates at p.
    constructor Create(heap: FlatHeap, maxFlatSize: nat, length: nat, p: nat, padding: seq<Byte>)
      requires maxFlatSize == MAX_FLAT_SIZE || maxFlatSize == MAX_LARGE_FLAT_SIZE
      requires |padding| == 8
      modifies heap
      ensures this.heap == heap && rep == OfPointer(p, padding)
      ensures heap.state == New(old(heap.state), p, maxFlatSize, length)
    {
      this.heap := heap;
      rep := OfPointer(p, padding);
      new;
      heap.state := New(heap.state, p, maxFlatSize, length);
    }

    // The move constructor.
    constructor Move(rhs: CordBuffer)
      modifies rhs
      ensures heap == rhs.heap && rep == old(rhs.rep)
      ensures rhs.rep == SetShortLength(old(rhs.rep), 0)
      ensures Length(heap.state, rep) == old(Length(rhs.heap.state, rhs.rep))
      ensures Capacity(heap.state, rep) == old(Capacity(rhs.heap.state, rhs.rep))
      ensures Length(heap.state, rhs.rep) == 0 && Capacity(heap.state, rhs.rep) == INLINE_CAPACITY
    {
      EmptyIsShort(rhs.rep);
      heap := rhs.heap;
      rep := rhs.rep;
      new;
      rhs.rep := SetShortLength(rhs.rep, 0);
    }

    // The move assignment, also of a buffer to itself.
    method Assign(rhs: CordBuffer)
      modifies this, rhs, heap
      ensures heap.state == FreeNode(old(heap.state), old(rep))
      ensures rhs.rep == SetShortLength(old(rhs.rep), 0)
      ensures this != rhs ==> rep == old(rhs.rep)
      ensures Length(rhs.heap.state, rhs.rep) == 0 && Capacity(rhs.heap.state, rhs.rep) == INLINE_CAPACITY
    {
      EmptyIsShort(rhs.rep);
      EmptyIsShort(rep);
      if !IsShort(rep) {
        heap.Delete(Pointer(rep));
      }
      rep := rhs.rep;
      rhs.rep := SetShortLength(rhs.rep, 0);
    }

    // The destructor.
    method Destroy()
      modifies heap
      ensures heap.state == FreeNode(old(heap.state), rep)
      ensures HoldsNode(old(heap.state), rep) ==>
        && Pointer(rep) !in heap.state.live
        && heap.state.freed == old(heap.state.freed + multiset{heap.state.live[Pointer(rep)].serial})
    {
      if !IsShort(rep) {
        heap.Delete(Pointer(rep));
      }
    }

    // The node, which the caller owns now, or the short data.
    method ConsumeValue() returns (node: Option<nat>, shortValue: seq<Byte>)
      requires IsShort(rep) ==> ShortLength(rep) <= INLINE_CAPACITY
      modifies this, heap
      ensures heap.state == ConsumeNode(old(heap.state), old(rep))
      ensures rep == SetShortLength(old(rep), 0)
      ensures node == if IsShort(old(rep)) then None else Some(Pointer(old(rep)))
      ensures IsShort(old(rep)) ==> shortValue == ShortData(rep)[..old(ShortLength(rep))]
      ensures IsShort(old(rep)) ==> |shortValue| == old(Length(heap.state, rep)) <= 15
      ensures IsShort(old(rep)) ==> forall i :: 0 <= i < |shortValue| ==> shortValue[i] == old(rep)[1 + i]
      ensures Length(heap.state, rep) == 0 && Capacity(heap.state, rep) == 15
    {
      node, shortValue := None, [];
      if IsShort(rep) {
        shortValue := ShortData(rep)[..ShortLength(rep)];
      } else {
        node := Some(Pointer(rep));
        heap.state := HandOut(heap.state, Pointer(rep));
      }
      rep := SetShortLength(rep, 0);
    }

    method GetLength() returns (n: nat)
      ensures n == Length(heap.state, rep)
    {
      if IsShort(rep) {
        n := ShortLength(rep);
      } else {
        n := if Pointer(rep) in heap.state.live then heap.state.live[Pointer(rep)].length else 0;
      }
    }

    method SetLength(n: nat)
      requires n <= Capacity(heap.state, rep)
      modifies this, heap
      ensures IsShort(old(rep)) ==> rep == SetShortLength(old(rep), n) && heap.state == old(heap.state)
      ensures !IsShort(old(rep)) ==> rep == old(rep) && heap.state == SetNodeLength(old(heap.state), Pointer(rep), n)
      ensures Length(heap.state, rep) == n && Capacity(heap.state, rep) == old(Capacity(heap.state, rep))
      ensures IsShort(rep) == old(IsShort(rep)) && ShortData(rep) == old(ShortData(rep))
    {
      if IsShort(rep) {
        ShortReadsBack(rep, n);
        rep := SetShortLength(rep, n);
      } else {
        heap.state := SetNodeLength(heap.state, Pointer(rep), n);
      }
    }

    method IncreaseLengthBy(n: nat)
      requires Length(heap.state, rep) + n <= Capacity(heap.state, rep)
      modifies this, heap
      ensures IsShort(old(rep)) ==> rep == AddShortLength(old(rep), n) && heap.state == old(heap.state)
      ensures !IsShort(old(rep)) ==>
        rep == old(rep) && heap.state == SetNodeLength(old(heap.state), Pointer(rep), Length(old(heap.state), rep) + n)
      ensures Length(heap.state, rep) == old(Length(heap.state, rep)) + n
      ensures Capacity(heap.state, rep) == old(Capacity(heap.state, rep))
      ensures IsShort(rep) == old(IsShort(rep)) && ShortData(rep) == old(ShortData(rep))
    {
      if IsShort(rep) {
        AddIsSet(rep, n);
        ShortReadsBack(rep, ShortLength(rep) + n);
        rep := AddShortLength(rep, n);
      } else {
        var length := GetLength();
        heap.state := SetNodeLength(heap.state, Pointer(rep), length + n);
      }
    }
  }

  // An empty buffer with room for `capacity` bytes, or for the default limit.
  method CreateWithDefaultLimit(heap: FlatHeap, capacity: nat, p: nat, padding: seq<Byte>)
    returns (b: CordBuffer)
    requires p < SIZE_RANGE && p % 2 == 0 && |padding| == 8
    modifies heap
    ensures fresh(b) && b.heap == heap
    ensures b.rep == if capacity > INLINE_CAPACITY then OfPointer(p, padding) else EMPTY
    ensures Length(heap.state, b.rep) == 0 && Min(4083, capacity) <= Capacity(heap.state, b.rep) <= 4083
    ensures heap.state
         == if capacity > INLINE_CAPACITY then New(old(heap.state), p, MAX_FLAT_SIZE, capacity) else old(heap.state)
    ensures capacity <= 15 ==> Capacity(heap.state, b.rep) == 15
    ensures capacity > 15 ==>
      && p in heap.state.live && Capacity(heap.state, b.rep) + 13 == heap.state.live[p].size <= 4096
      && forall tag :: 6 <= tag <= 248 && TagToLength(tag) >= Min(4083, capacity) ==>
           heap.state.live[p].size <= TagToAllocatedSize(tag)
  {
    EmptyIsShort(EMPTY);
    PointerReadsBack(p, padding);
    DefaultLimitKept(capacity);
    forall tag | 6 <= tag <= 248 && capacity > 15 && TagToLength(tag) >= Min(4083, capacity)
      ensures DefaultSize(capacity) <= TagToAllocatedSize(tag)
    {
      DefaultIsLeast(capacity, tag);
    }
    if capacity > INLINE_CAPACITY {
      b := new CordBuffer.Create(heap, MAX_FLAT_SIZE, capacity, p, padding);
    } else {
      b := new CordBuffer(heap);
    }
  }

  // An empty buffer that is always a node. The second result is the length that was asked for.
  // A capacity up to the default limit is met exactly where the block or the smallest node has
  // room for it or the length wrapped around; a capacity of the block size or more gets exactly
  // the block exactly for a block between the smallest node and the custom limit.
  method CreateWithCustomLimit(heap: FlatHeap, blockSize: nat, capacity: nat, p: nat, padding: seq<Byte>)
    returns (b: CordBuffer, ghost length: nat)
    requires blockSize < SIZE_RANGE && capacity < SIZE_RANGE && HasSingleBit(blockSize)
    requires p < SIZE_RANGE && p % 2 == 0 && |padding| == 8
    modifies heap
    ensures fresh(b) && b.heap == heap
    ensures b.rep == OfPointer(p, padding) && !IsShort(b.rep) && Pointer(b.rep) == p
    ensures heap.state == New(old(heap.state), p, MAX_LARGE_FLAT_SIZE, length) && IsAsked(blockSize, capacity, length)
    ensures Length(heap.state, b.rep) == 0
    ensures KeepsLimits(blockSize, capacity, heap.state.live[p].size, Capacity(heap.state, b.rep))
    ensures capacity <= 4083 ==>
      ServesSmall(blockSize, capacity, heap.state.live[p].size, Capacity(heap.state, b.rep))
    ensures 4083 < capacity && capacity + 13 < Min(blockSize, 65536) ==>
      ServesLarge(capacity, heap.state.live[p].size, Capacity(heap.state, b.rep))
  {
    var asked := CreateWithCustomLimitImpl(blockSize, capacity);
    length := asked;
    b := new CordBuffer.Create(heap, MAX_LARGE_FLAT_SIZE, asked, p, padding);
    CustomNode(blockSize, capacity, asked, heap.state.live[p].size, TagToLength(heap.state.live[p].tag));
    PointerReadsBack(p, padding);
  }

  // ----- A program that uses buffers -----

  // The buffers alive, under names. Each operation of a run is carried out by the methods above.
  class Program {
    const heap: FlatHeap
    var objects: map<nat, CordBuffer>

    ghost function Buffers(): set<object>
      reads this
    {
      set b | b in objects :: objects[b]
    }

    ghost predicate Valid()
      reads this
    {
      && (forall b :: b in objects ==> objects[b].heap == heap)
      && (forall b, c :: b in objects && c in objects && b != c ==> objects[b] != objects[c])
    }

    ghost function View(): World
      reads this, heap, Buffers()
    {
      World(map b | b in objects :: objects[b].rep, heap.state)
    }

    constructor ()
      ensures Valid() && fresh(heap) && Buffers() == {}
      ensures View() == START
    {
      heap := new FlatHeap();
      objects := map[];
    }

    method Perform(op: Op)
      requires Valid() && Inv(View()) && Enabled(View(), op)
      modifies this, heap, Buffers()
      ensures Valid() && fresh(Buffers() - old(Buffers()))
      ensures View() == Step(old(View()), op) && Inv(View())
    {
      StepKeepsInv(View(), op);
      Dispatch(op);
    }

    method Dispatch(op: Op)
      requires Valid() && AllFit(View()) && Enabled(View(), op)
      modifies this, heap, Buffers()
      ensures Valid() && fresh(Buffers() - old(Buffers()))
      ensures View() == Step(old(View()), op)
    {
      if op.Default? {
        Default(op);
      } else if op.Create? {
        Create(op);
      } else if op.MoveConstruct? {
        MoveConstruct(op);
      } else if op.MoveAssign? {
        MoveAssign(op);
      } else if op.Consume? {
        Consume(op);
      } else if op.Destroy? {
        Destroy(op);
      } else if op.SetLength? {
        SetLength(op);
      } else if op.IncreaseLengthBy? {
        IncreaseLengthBy(op);
      } else {
        heap.state := Unref(heap.state, op.p);
      }
    }

    method Default(op: Op)
      requires Valid() && op.Default? && Enabled(View(), op)
      modifies this, heap, Buffers()
      ensures Valid() && fresh(Buffers() - old(Buffers()))
      ensures View() == Step(old(View()), op)
    {
      var buffer := new CordBuffer(heap);
      objects := objects[op.b := buffer];
      assert View().buffers == Step(old(View()), op).buffers;
    }

    method Create(op: Op)
      requires Valid() && op.Create? && Enabled(View(), op)
      modifies this, heap, Buffers()
      ensures Valid() && fresh(Buffers() - old(Buffers()))
      ensures View() == Step(old(View()), op)
    {
      var buffer := new CordBuffer.Create(heap, op.maxFlatSize, op.length, op.p, op.padding);
      objects := objects[op.b := buffer];
      assert View().buffers == Step(old(View()), op).buffers;
    }

    method MoveConstruct(op: Op)
      requires Valid() && op.MoveConstruct? && Enabled(View(), op)
      modifies this, heap, Buffers()
      ensures Valid() && fresh(Buffers() - old(Buffers()))
      ensures View() == Step(old(View()), op)
    {
      var buffer := new CordBuffer.Move(objects[op.from]);
      objects := objects[op.b := buffer];
      assert View().buffers == Step(old(View()), op).buffers;
    }

    method MoveAssign(op: Op)
      requires Valid() && op.MoveAssign? && Enabled(View(), op)
      modifies this, heap, Buffers()
      ensures Valid() && fresh(Buffers() - old(Buffers()))
      ensures View() == Step(old(View()), op)
    {
      objects[op.b].Assign(objects[op.from]);
      assert View().buffers == Step(old(View()), op).buffers;
    }

    method Consume(op: Op)
      requires Valid() && op.Consume? && Enabled(View(), op) && AllFit(View())
      modifies this, heap, Buffers()
      ensures Valid() && fresh(Buffers() - old(Buffers()))
      ensures View() == Step(old(View()), op)
    {
      assert Fits(View().heap, View().buffers[op.b]);
      var node, shortValue := objects[op.b].ConsumeValue();
      assert View().buffers == Step(old(View()), op).buffers;
    }

    method Destroy(op: Op)
      requires Valid() && op.Destroy? && Enabled(View(), op)
      modifies this, heap, Buffers()
      ensures Valid() && fresh(Buffers() - old(Buffers()))
      ensures View() == Step(old(View()), op)
    {
      objects[op.b].Destroy();
      objects := objects - {op.b};
      assert View().buffers == Step(old(View()), op).buffers;
    }

    method SetLength(op: Op)
      requires Valid() && op.SetLength? && Enabled(View(), op)
      modifies this, heap, Buffers()
      ensures Valid() && fresh(Buffers() - old(Buffers()))
      ensures View() == Step(old(View()), op)
    {
      objects[op.b].SetLength(op.n);
      assert View().buffers == Step(old(View()), op).buffers;
    }

    method IncreaseLengthBy(op: Op)
      requires Valid() && op.IncreaseLengthBy? && Enabled(View(), op)
      modifies this, heap, Buffers()
      ensures Valid() && fresh(Buffers() - old(Buffers()))
      ensures View() == Step(old(View()), op)
    {
      objects[op.b].IncreaseLengthBy(op.n);
      assert View().buffers == Step(old(View()), op).buffers;
    }

    // A whole list of operations, each permitted in its turn.
    method Run(ops: seq<Op>)
      requires Valid() && Inv(View()) && Permitted(View(), ops)
      modifies this, heap, Buffers()
      ensures Valid() && fresh(Buffers() - old(Buffers()))
      ensures IsRun(old(View()), ops, View()) && Inv(View())
    {
      ghost var start := View();
      for i := 0 to |ops|
        invariant Valid() && fresh(Buffers() - old(Buffers()))
        invariant Inv(View()) && Permitted(View(), ops[i..])
        invariant Final(View(), ops[i..]) == Final(start, ops)
      {
        assert ops[i..][1..] == ops[i + 1..];
        Perform(ops[i]);
      }
      PermittedIsRun(start, ops);
    }
  }

  // A program from its start: no fault occurs and every node has one fate, and once all buffers are
  // gone none is leaked.
  method RunProgram(ops: seq<Op>) returns (program: Program, ghost w: World)
    requires Permitted(START, ops)
    ensures program.Valid() && w == program.View() && IsRun(START, ops, w)
    ensures !w.heap.fault && forall k: nat :: k < w.heap.next ==> HasOneFate(w, k)
    ensures w.buffers == map[] ==> Settled(w.heap)
  {
    StartInv();
    program := new Program();
    program.Run(ops);
    w := program.View();
    Fates(ops, w);
  }

  lemma Fates(ops: seq<Op>, w: World)
    requires IsRun(START, ops, w)
    ensures !w.heap.fault && forall k: nat :: k < w.heap.next ==> HasOneFate(w, k)
    ensures w.buffers == map[] ==> Settled(w.heap)
  {
    RunInv(ops, w);
    forall k: nat | k < w.heap.next
      ensures HasOneFate(w, k)
    {
      OneFate(ops, w, k);
    }
    if w.buffers == map[] {
      NoLeak(ops, w);
    }
  }
}
