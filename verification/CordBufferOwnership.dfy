// Who owns the nodes that CordBuffers (absl/strings/cord_buffer.h) allocate: every run of
// creations, moves, consumptions and destructions frees each node or hands it out, once.
module CordBufferOwnership {
  import opened CordRepFlat
  import opened CordBufferLimits
  import opened CordBufferRep

  // ----- The heap -----

  // The size passed to operator new, and the tag and the length of the node in it. The serial
  // number tells apart blocks that got the same address one after the other.
  datatype Block = Block(size: nat, tag: nat, length: nat, serial: nat)

  // The blocks allocated now, and which ones buffers freed or handed out. `fault` is set by an
  // access to a node that is not there and by a sized delete with a wrong size.
  datatype Heap = Heap(live: map<nat, Block>, next: nat, freed: multiset<nat>, handed: multiset<nat>, fault: bool)

  const EMPTY_HEAP := Heap(map[], 0, multiset{}, multiset{}, false)

  function Fault(h: Heap): Heap
  {
    Heap(h.live, h.next, h.freed, h.handed, true)
  }

  // CordRepFlat::New at the address that operator new returns.
  function New(h: Heap, p: nat, maxFlatSize: nat, length: nat): Heap
    requires maxFlatSize == MAX_FLAT_SIZE || maxFlatSize == MAX_LARGE_FLAT_SIZE
  {
    var block := Block(NewSize(maxFlatSize, length), NewTag(maxFlatSize, length), 0, h.next);
    Heap(h.live[p := block], h.next + 1, h.freed, h.handed, h.fault)
  }

  // CordRepFlat::Delete
  function Delete(h: Heap, p: nat): Heap
  {
    if p in h.live && h.live[p].size == TagToAllocatedSize(h.live[p].tag) then
      Heap(h.live - {p}, h.next, h.freed + multiset{h.live[p].serial}, h.handed, h.fault)
    else Fault(h)
  }

  // A node passes to the caller of ConsumeValue.
  function HandOut(h: Heap, p: nat): Heap
  {
    if p in h.live then Heap(h.live, h.next, h.freed, h.handed + multiset{h.live[p].serial}, h.fault) else Fault(h)
  }

  // The new owner gives the node up.
  function Unref(h: Heap, p: nat): Heap
  {
    Heap(h.live - {p}, h.next, h.freed, h.handed, h.fault)
  }

  function SetNodeLength(h: Heap, p: nat, length: nat): Heap
  {
    if p in h.live then
      var b := h.live[p];
      Heap(h.live[p := Block(b.size, b.tag, length, b.serial)], h.next, h.freed, h.handed, h.fault)
    else Fault(h)
  }

  // ----- Buffers -----

  datatype World = World(buffers: map<nat, Rep>, heap: Heap)

  // length() and capacity()
  function Length(h: Heap, r: Rep): nat
  {
    if IsShort(r) then ShortLength(r)
    else if Pointer(r) in h.live then h.live[Pointer(r)].length
    else 0
  }

  function Capacity(h: Heap, r: Rep): nat
  {
    if IsShort(r) then INLINE_CAPACITY
    else if Pointer(r) in h.live then TagToLength(h.live[Pointer(r)].tag)
    else 0
  }

  datatype Op =
    | Default(b: nat)
    | Create(b: nat, maxFlatSize: nat, length: nat, p: nat, padding: seq<Byte>)
    | MoveConstruct(b: nat, from: nat)
    | MoveAssign(b: nat, from: nat)
    | Consume(b: nat)
    | Destroy(b: nat)
    | SetLength(b: nat, n: nat)
    | IncreaseLengthBy(b: nat, n: nat)
    | Drop(p: nat)

  // What the caller and operator new must respect: names of new buffers are not in use, memory is
  // fresh and at an even address, lengths stay within the capacity, and only the new owner of a
  // node that was handed out gives it up.
  predicate Enabled(w: World, op: Op)
  {
    match op
    case Default(b) => b !in w.buffers
    case Create(b, maxFlatSize, length, p, padding) =>
      && b !in w.buffers && |padding| == 8
      && (maxFlatSize == MAX_FLAT_SIZE || maxFlatSize == MAX_LARGE_FLAT_SIZE)
      && p !in w.heap.live && p % 2 == 0 && p < SIZE_RANGE
    case MoveConstruct(b, from) => b !in w.buffers && from in w.buffers
    case MoveAssign(b, from) => b in w.buffers && from in w.buffers
    case Consume(b) => b in w.buffers
    case Destroy(b) => b in w.buffers
    case SetLength(b, n) => b in w.buffers && n <= Capacity(w.heap, w.buffers[b])
    case IncreaseLengthBy(b, n) =>
      b in w.buffers && Length(w.heap, w.buffers[b]) + n <= Capacity(w.heap, w.buffers[b])
    case Drop(p) => p in w.heap.live && w.heap.live[p].serial in w.heap.handed
  }

  // The destructor, and the first half of an assignment.
  function FreeNode(h: Heap, r: Rep): Heap
  {
    if IsShort(r) then h else Delete(h, Pointer(r))
  }

  function ConsumeNode(h: Heap, r: Rep): Heap
  {
    if IsShort(r) then h else HandOut(h, Pointer(r))
  }

  function Emptied(buffers: map<nat, Rep>, b: nat): map<nat, Rep>
    requires b in buffers
  {
    buffers[b := SetShortLength(buffers[b], 0)]
  }

  function Step(w: World, op: Op): World
    requires Enabled(w, op)
  {
    match op
    case Default(b) => World(w.buffers[b := EMPTY], w.heap)
    case Create(b, maxFlatSize, length, p, padding) =>
      World(w.buffers[b := OfPointer(p, padding)], New(w.heap, p, maxFlatSize, length))
    case MoveConstruct(b, from) =>
      World(Emptied(w.buffers[b := w.buffers[from]], from), w.heap)
    case MoveAssign(b, from) =>
      World(Emptied(w.buffers[b := w.buffers[from]], from), FreeNode(w.heap, w.buffers[b]))
    case Consume(b) =>
      World(Emptied(w.buffers, b), ConsumeNode(w.heap, w.buffers[b]))
    case Destroy(b) => World(w.buffers - {b}, FreeNode(w.heap, w.buffers[b]))
    case SetLength(b, n) =>
      if IsShort(w.buffers[b]) then World(w.buffers[b := SetShortLength(w.buffers[b], n)], w.heap)
      else World(w.buffers, SetNodeLength(w.heap, Pointer(w.buffers[b]), n))
    case IncreaseLengthBy(b, n) =>
      if IsShort(w.buffers[b]) then World(w.buffers[b := AddShortLength(w.buffers[b], n)], w.heap)
      else World(w.buffers, SetNodeLength(w.heap, Pointer(w.buffers[b]), Length(w.heap, w.buffers[b]) + n))
    case Drop(p) => World(w.buffers, Unref(w.heap, p))
  }

  // ----- What every step keeps -----

  // A live node knows its size, is not freed, and is the only one with its serial number.
  ghost predicate HeapOk(h: Heap)
  {
    && !h.fault
    && (forall p :: p in h.live ==> NodeOk(h, h.live[p]))
    && (forall p, q :: p in h.live && q in h.live && p != q ==> h.live[p].serial != h.live[q].serial)
    && (forall k :: k in h.freed || k in h.handed ==> k < h.next)
    && (forall k :: h.freed[k] + h.handed[k] <= 1)
  }

  predicate NodeOk(h: Heap, block: Block)
  {
    && IsFlatTag(block.tag) && block.size == TagToAllocatedSize(block.tag)
    && block.serial < h.next && block.serial !in h.freed
  }

  // A serial number that is neither freed nor handed out belongs to a live node.
  ghost predicate Accounted(h: Heap)
  {
    forall k: nat :: k < h.next && k !in h.freed && k !in h.handed ==> HasNode(h, k)
  }

  ghost predicate HasNode(h: Heap, k: nat)
  {
    exists p :: p in h.live && h.live[p].serial == k
  }

  // The addresses that buffers hold.
  function Owns(buffers: map<nat, Rep>): map<nat, nat>
  {
    map b | b in buffers && !IsShort(buffers[b]) :: Pointer(buffers[b])
  }

  // Each buffer that holds an address holds that of a live node that was not handed out, no two
  // hold the same, and every other live node was handed out.
  ghost predicate Sound(owns: map<nat, nat>, h: Heap)
  {
    && HeapOk(h) && Accounted(h)
    && (forall b :: b in owns ==> owns[b] in h.live && h.live[owns[b]].serial !in h.handed)
    && (forall b, c :: b in owns && c in owns && b != c ==> owns[b] != owns[c])
    && (forall p :: p in h.live && h.live[p].serial !in h.handed ==> p in owns.Values)
  }

  ghost predicate Inv(w: World)
  {
    Sound(Owns(w.buffers), w.heap) && AllFit(w)
  }

  ghost predicate AllFit(w: World)
  {
    forall b :: b in w.buffers ==> Fits(w.heap, w.buffers[b])
  }

  predicate Fits(h: Heap, r: Rep)
  {
    Length(h, r) <= Capacity(h, r)
  }

  // ----- Steps on the heap -----

  lemma NewOk(h: Heap, p: nat, maxFlatSize: nat, length: nat)
    requires HeapOk(h) && Accounted(h) && p !in h.live
    requires maxFlatSize == MAX_FLAT_SIZE || maxFlatSize == MAX_LARGE_FLAT_SIZE
    ensures var h' := New(h, p, maxFlatSize, length);
            HeapOk(h') && Accounted(h') && h.next !in h'.handed
  {
    var h' := New(h, p, maxFlatSize, length);
    NewKeepsSize(maxFlatSize, length);
    forall k: nat | k < h'.next && k !in h'.freed && k !in h'.handed
      ensures HasNode(h', k)
    {
      if k == h.next {
        assert h'.live[p].serial == k;
      } else {
        var q :| q in h.live && h.live[q].serial == k;
        assert h'.live[q].serial == k;
      }
    }
  }

  lemma DeleteOk(h: Heap, p: nat)
    requires HeapOk(h) && Accounted(h) && p in h.live && h.live[p].serial !in h.handed
    ensures var h' := Delete(h, p);
            && HeapOk(h') && Accounted(h')
            && h' == Heap(h.live - {p}, h.next, h.freed + multiset{h.live[p].serial}, h.handed, false)
  {
    var h' := Delete(h, p);
    forall k: nat | k < h'.next && k !in h'.freed && k !in h'.handed
      ensures HasNode(h', k)
    {
      var q :| q in h.live && h.live[q].serial == k;
      assert h'.live[q].serial == k;
    }
  }

  lemma HandOutOk(h: Heap, p: nat)
    requires HeapOk(h) && Accounted(h) && p in h.live && h.live[p].serial !in h.handed
    ensures var h' := HandOut(h, p);
            && HeapOk(h') && Accounted(h')
            && h' == Heap(h.live, h.next, h.freed, h.handed + multiset{h.live[p].serial}, false)
  {
    var h' := HandOut(h, p);
    forall k: nat | k < h'.next && k !in h'.freed && k !in h'.handed
      ensures HasNode(h', k)
    {
      var q :| q in h.live && h.live[q].serial == k;
      assert h'.live[q].serial == k;
    }
  }

  lemma UnrefOk(h: Heap, p: nat)
    requires HeapOk(h) && Accounted(h) && p in h.live && h.live[p].serial in h.handed
    ensures HeapOk(Unref(h, p)) && Accounted(Unref(h, p))
  {
    var h' := Unref(h, p);
    forall k: nat | k < h'.next && k !in h'.freed && k !in h'.handed
      ensures HasNode(h', k)
    {
      var q :| q in h.live && h.live[q].serial == k;
      assert h'.live[q].serial == k;
    }
  }

  lemma SetNodeLengthOk(h: Heap, p: nat, length: nat)
    requires HeapOk(h) && Accounted(h) && p in h.live
    ensures HeapOk(SetNodeLength(h, p, length)) && Accounted(SetNodeLength(h, p, length))
  {
    var h' := SetNodeLength(h, p, length);
    forall k: nat | k < h'.next && k !in h'.freed && k !in h'.handed
      ensures HasNode(h', k)
    {
      var q :| q in h.live && h.live[q].serial == k;
      assert h'.live[q].serial == k;
    }
  }

  // ----- Steps on the owners -----

  lemma SoundNew(owns: map<nat, nat>, h: Heap, b: nat, p: nat, maxFlatSize: nat, length: nat)
    requires Sound(owns, h) && b !in owns && p !in h.live
    requires maxFlatSize == MAX_FLAT_SIZE || maxFlatSize == MAX_LARGE_FLAT_SIZE
    ensures Sound(owns[b := p], New(h, p, maxFlatSize, length))
  {
    NewOk(h, p, maxFlatSize, length);
    OwnedMore(owns, h, New(h, p, maxFlatSize, length), b, p);
  }

  // A new live node with a new owner.
  lemma OwnedMore(owns: map<nat, nat>, h: Heap, h': Heap, b: nat, p: nat)
    requires Sound(owns, h) && b !in owns && p !in h.live && HeapOk(h') && Accounted(h')
    requires p in h'.live && h'.live == h.live[p := h'.live[p]]
    requires h'.handed == h.handed && h'.live[p].serial !in h.handed
    ensures Sound(owns[b := p], h')
  {
    UpdateValues(owns, b, p);
  }

  // One live node fewer that has no owner.
  lemma OwnedLess(owns: map<nat, nat>, h: Heap, h': Heap, b: nat)
    requires Sound(owns, h) && b in owns && HeapOk(h') && Accounted(h')
    requires h'.live == h.live && h'.handed == h.handed + multiset{h.live[owns[b]].serial}
    ensures Sound(owns - {b}, h')
  {
    RemoveValues(owns, b);
  }

  lemma UpdateValues(owns: map<nat, nat>, b: nat, p: nat)
    requires b !in owns
    ensures owns[b := p].Values == owns.Values + {p}
  {
    var m := owns[b := p];
    assert b in m && m[b] == p;
    forall q | q in owns.Values
      ensures q in m.Values
    {
      var c :| c in owns && owns[c] == q;
      assert c in m && m[c] == q;
    }
  }

  lemma RemoveValues(owns: map<nat, nat>, b: nat)
    requires b in owns
    ensures owns.Values - {owns[b]} <= (owns - {b}).Values
  {
    var m := owns - {b};
    forall q | q in owns.Values && q != owns[b]
      ensures q in m.Values
    {
      var c :| c in owns && owns[c] == q;
      assert c in m && m[c] == q;
    }
  }

  lemma SoundDelete(owns: map<nat, nat>, h: Heap, b: nat)
    requires Sound(owns, h) && b in owns
    ensures Sound(owns - {b}, Delete(h, owns[b]))
  {
    DeleteOk(h, owns[b]);
    RemoveValues(owns, b);
  }

  lemma SoundHandOut(owns: map<nat, nat>, h: Heap, b: nat)
    requires Sound(owns, h) && b in owns
    ensures Sound(owns - {b}, HandOut(h, owns[b]))
  {
    HandOutOk(h, owns[b]);
    OwnedLess(owns, h, HandOut(h, owns[b]), b);
  }

  lemma SoundMove(owns: map<nat, nat>, h: Heap, b: nat, from: nat)
    requires Sound(owns, h) && b !in owns && from in owns
    ensures Sound((owns - {from})[b := owns[from]], h)
  {
    RemoveValues(owns, from);
    UpdateValues(owns - {from}, b, owns[from]);
  }

  lemma SoundUnref(owns: map<nat, nat>, h: Heap, p: nat)
    requires Sound(owns, h) && p in h.live && h.live[p].serial in h.handed
    ensures Sound(owns, Unref(h, p))
  {
    UnrefOk(h, p);
  }

  lemma SoundSetLength(owns: map<nat, nat>, h: Heap, p: nat, length: nat)
    requires Sound(owns, h) && p in h.live
    ensures Sound(owns, SetNodeLength(h, p, length))
  {
    SetNodeLengthOk(h, p, length);
  }

  // ----- Steps on the buffers -----

  lemma EmptyIsShort(r: Rep)
    ensures IsShort(EMPTY) && ShortLength(EMPTY) == 0
    ensures IsShort(SetShortLength(r, 0)) && ShortLength(SetShortLength(r, 0)) == 0
  {
    ShortReadsBack(r, 0);
  }

  lemma OwnsShort(buffers: map<nat, Rep>, b: nat, r: Rep)
    requires IsShort(r)
    ensures Owns(buffers[b := r]) == Owns(buffers) - {b}
  {
  }

  lemma OwnsLong(buffers: map<nat, Rep>, b: nat, r: Rep)
    requires !IsShort(r)
    ensures Owns(buffers[b := r]) == Owns(buffers)[b := Pointer(r)]
  {
  }

  lemma OwnsRemoved(buffers: map<nat, Rep>, b: nat)
    ensures Owns(buffers - {b}) == Owns(buffers) - {b}
  {
  }

  lemma NewFits(h: Heap, p: nat, maxFlatSize: nat, length: nat, r: Rep)
    requires maxFlatSize == MAX_FLAT_SIZE || maxFlatSize == MAX_LARGE_FLAT_SIZE
    requires Fits(h, r)
    ensures Fits(New(h, p, maxFlatSize, length), r)
  {
  }

  lemma FreeFits(h: Heap, s: Rep, r: Rep)
    requires Fits(h, r)
    ensures Fits(FreeNode(h, s), r) && Fits(ConsumeNode(h, s), r) && Fits(Unref(h, Pointer(s)), r)
  {
  }

  // What the owners say about one buffer.
  predicate Entry(owns: map<nat, nat>, b: nat, r: Rep)
  {
    if IsShort(r) then b !in owns else b in owns && owns[b] == Pointer(r)
  }

  lemma OwnsEntry(buffers: map<nat, Rep>, b: nat)
    requires b in buffers
    ensures Entry(Owns(buffers), b, buffers[b])
  {
  }

  // The node of a buffer that is destroyed or assigned to is freed.
  lemma FreeSound(owns: map<nat, nat>, h: Heap, b: nat, r: Rep)
    requires Sound(owns, h) && Entry(owns, b, r)
    ensures Sound(owns - {b}, FreeNode(h, r))
  {
    if IsShort(r) {
      assert owns - {b} == owns;
    } else {
      SoundDelete(owns, h, b);
    }
  }

  lemma ConsumeNodeSound(owns: map<nat, nat>, h: Heap, b: nat, r: Rep)
    requires Sound(owns, h) && Entry(owns, b, r)
    ensures Sound(owns - {b}, ConsumeNode(h, r))
  {
    if IsShort(r) {
      assert owns - {b} == owns;
    } else {
      SoundHandOut(owns, h, b);
    }
  }

  lemma MovedOwns(buffers: map<nat, Rep>, b: nat, from: nat)
    requires from in buffers
    ensures var owns := Owns(buffers) - {b};
            Owns(Emptied(buffers[b := buffers[from]], from))
            == if from in owns then (owns - {from})[b := owns[from]] else owns
  {
    var r := buffers[from];
    var moved := buffers[b := r];
    EmptyIsShort(r);
    OwnsShort(moved, from, SetShortLength(moved[from], 0));
    if IsShort(r) {
      OwnsShort(buffers, b, r);
    } else {
      OwnsLong(buffers, b, r);
    }
  }

  // Moving a buffer hands its node over; onto itself, the node is freed already and it ends empty.
  lemma MoveSound(buffers: map<nat, Rep>, h: Heap, b: nat, from: nat)
    requires Sound(Owns(buffers) - {b}, h) && from in buffers
    ensures Sound(Owns(Emptied(buffers[b := buffers[from]], from)), h)
  {
    MovedOwns(buffers, b, from);
    var owns := Owns(buffers) - {b};
    if from in owns {
      SoundMove(owns, h, b, from);
    }
  }

  lemma ResizeShort(buffers: map<nat, Rep>, b: nat, n: nat)
    requires b in buffers && IsShort(buffers[b]) && n < 128
    ensures Owns(buffers[b := SetShortLength(buffers[b], n)]) == Owns(buffers)
  {
    ShortReadsBack(buffers[b], n);
    OwnsShort(buffers, b, SetShortLength(buffers[b], n));
  }

  lemma ResizeLong(owns: map<nat, nat>, h: Heap, b: nat, r: Rep, n: nat)
    requires Sound(owns, h) && Entry(owns, b, r) && !IsShort(r)
    ensures Sound(owns, SetNodeLength(h, Pointer(r), n))
  {
    SoundSetLength(owns, h, owns[b], n);
  }

  lemma LengthSound(w: World, b: nat, n: nat, w': World)
    requires Inv(w) && Enabled(w, SetLength(b, n))
    requires w' == Step(w, SetLength(b, n))
    ensures Sound(Owns(w'.buffers), w'.heap)
  {
    if IsShort(w.buffers[b]) {
      ResizeShort(w.buffers, b, n);
    } else {
      OwnsEntry(w.buffers, b);
      ResizeLong(Owns(w.buffers), w.heap, b, w.buffers[b], n);
    }
  }

  lemma LengthFits(w: World, b: nat, n: nat, c: nat)
    requires AllFit(w) && Enabled(w, SetLength(b, n)) && c in w.buffers
    requires IsShort(w.buffers[b]) || Pointer(w.buffers[b]) in w.heap.live
    ensures c in Step(w, SetLength(b, n)).buffers
    ensures Fits(Step(w, SetLength(b, n)).heap, Step(w, SetLength(b, n)).buffers[c])
  {
    var r := w.buffers[b];
    assert Fits(w.heap, w.buffers[c]);
    if IsShort(r) {
      ShortReadsBack(r, n);
    }
  }

  // IncreaseLengthBy sets the sum.
  lemma IncreaseIsSet(w: World, b: nat, n: nat)
    requires AllFit(w) && Enabled(w, IncreaseLengthBy(b, n))
    ensures var m := Length(w.heap, w.buffers[b]) + n;
            Enabled(w, SetLength(b, m)) && Step(w, IncreaseLengthBy(b, n)) == Step(w, SetLength(b, m))
  {
    if IsShort(w.buffers[b]) {
      AddIsSet(w.buffers[b], n);
    }
  }

  lemma CreateSound(w: World, op: Op, w': World)
    requires Inv(w) && op.Create? && Enabled(w, op)
    requires w' == Step(w, op)
    ensures Sound(Owns(w'.buffers), w'.heap)
  {
    PointerReadsBack(op.p, op.padding);
    OwnsLong(w.buffers, op.b, OfPointer(op.p, op.padding));
    SoundNew(Owns(w.buffers), w.heap, op.b, op.p, op.maxFlatSize, op.length);
  }

  lemma AssignSound(w: World, b: nat, from: nat, w': World)
    requires Inv(w) && Enabled(w, MoveAssign(b, from))
    requires w' == Step(w, MoveAssign(b, from))
    ensures Sound(Owns(w'.buffers), w'.heap)
  {
    OwnsEntry(w.buffers, b);
    FreeSound(Owns(w.buffers), w.heap, b, w.buffers[b]);
    MoveSound(w.buffers, FreeNode(w.heap, w.buffers[b]), b, from);
  }

  lemma ConstructSound(w: World, op: Op, w': World)
    requires Inv(w) && (op.Default? || op.MoveConstruct?) && Enabled(w, op)
    requires w' == Step(w, op)
    ensures Sound(Owns(w'.buffers), w'.heap)
  {
    assert Owns(w.buffers) - {op.b} == Owns(w.buffers);
    if op.Default? {
      EmptyIsShort(EMPTY);
      OwnsShort(w.buffers, op.b, EMPTY);
    } else {
      MoveSound(w.buffers, w.heap, op.b, op.from);
    }
  }

  lemma ConsumeSound(w: World, b: nat, w': World)
    requires Inv(w) && Enabled(w, Consume(b))
    requires w' == Step(w, Consume(b))
    ensures Sound(Owns(w'.buffers), w'.heap)
  {
    EmptyIsShort(w.buffers[b]);
    OwnsEntry(w.buffers, b);
    ConsumeNodeSound(Owns(w.buffers), w.heap, b, w.buffers[b]);
    OwnsShort(w.buffers, b, SetShortLength(w.buffers[b], 0));
  }

  lemma DestroySound(w: World, b: nat, w': World)
    requires Inv(w) && Enabled(w, Destroy(b))
    requires w' == Step(w, Destroy(b))
    ensures Sound(Owns(w'.buffers), w'.heap)
  {
    OwnsEntry(w.buffers, b);
    FreeSound(Owns(w.buffers), w.heap, b, w.buffers[b]);
    OwnsRemoved(w.buffers, b);
  }

  lemma ResizedSound(w: World, b: nat, m: nat, w': World)
    requires Inv(w) && b in w.buffers && !IsShort(w.buffers[b])
    requires w' == World(w.buffers, SetNodeLength(w.heap, Pointer(w.buffers[b]), m))
    ensures Sound(Owns(w'.buffers), w'.heap)
  {
    OwnsEntry(w.buffers, b);
    ResizeLong(Owns(w.buffers), w.heap, b, w.buffers[b], m);
  }

  lemma IncreaseSound(w: World, b: nat, n: nat, w': World)
    requires Inv(w) && Enabled(w, IncreaseLengthBy(b, n))
    requires w' == Step(w, IncreaseLengthBy(b, n))
    ensures Sound(Owns(w'.buffers), w'.heap)
  {
    if IsShort(w.buffers[b]) {
      IncreaseShort(w, b, n);
    } else {
      ResizedSound(w, b, Length(w.heap, w.buffers[b]) + n, w');
    }
  }

  lemma IncreaseShort(w: World, b: nat, n: nat)
    requires Enabled(w, IncreaseLengthBy(b, n)) && IsShort(w.buffers[b])
    ensures Owns(w.buffers[b := AddShortLength(w.buffers[b], n)]) == Owns(w.buffers)
  {
    AddIsSet(w.buffers[b], n);
    ResizeShort(w.buffers, b, ShortLength(w.buffers[b]) + n);
  }

  lemma StepSound(w: World, op: Op, w': World)
    requires Inv(w) && Enabled(w, op)
    requires w' == Step(w, op)
    ensures Sound(Owns(w'.buffers), w'.heap)
  {
    match op
    case Default(_) => ConstructSound(w, op, w');
    case Create(_, _, _, _, _) => CreateSound(w, op, w');
    case MoveConstruct(_, _) => ConstructSound(w, op, w');
    case MoveAssign(b, from) => AssignSound(w, b, from, w');
    case Consume(b) => ConsumeSound(w, b, w');
    case Destroy(b) => DestroySound(w, b, w');
    case SetLength(b, n) => LengthSound(w, b, n, w');
    case IncreaseLengthBy(b, n) => IncreaseSound(w, b, n, w');
    case Drop(p) => SoundUnref(Owns(w.buffers), w.heap, p);
  }

  lemma StepFits(w: World, op: Op, c: nat)
    requires AllFit(w) && Enabled(w, op) && !op.SetLength? && !op.IncreaseLengthBy?
    requires c in Step(w, op).buffers
    ensures Fits(Step(w, op).heap, Step(w, op).buffers[c])
  {
    EmptyIsShort(EMPTY);
    match op
    case Default(b) =>
    case Create(b, maxFlatSize, length, p, padding) =>
      PointerReadsBack(p, padding);
      if c != b {
        NewFits(w.heap, p, maxFlatSize, length, w.buffers[c]);
      }
    case MoveConstruct(b, from) =>
      EmptyIsShort(w.buffers[from]);
    case MoveAssign(b, from) =>
      EmptyIsShort(w.buffers[from]);
      if c != from {
        FreeFits(w.heap, w.buffers[b], if c == b then w.buffers[from] else w.buffers[c]);
      }
    case Consume(b) =>
      EmptyIsShort(w.buffers[b]);
      FreeFits(w.heap, w.buffers[b], w.buffers[c]);
    case Destroy(b) =>
      FreeFits(w.heap, w.buffers[b], w.buffers[c]);
    case Drop(p) =>
  }

  lemma OtherKept(owns: map<nat, nat>, h: Heap, b: nat, r: Rep, c: nat, s: Rep)
    requires Sound(owns, h) && Entry(owns, b, r) && Entry(owns, c, s) && b != c
    ensures Length(FreeNode(h, r), s) == Length(h, s) && Capacity(FreeNode(h, r), s) == Capacity(h, s)
  {
  }

  // A move takes over the whole value and leaves an empty buffer behind, also when a node is freed
  // on the way. A buffer moved onto itself ends empty.
  lemma MoveKeepsValue(w: World, op: Op)
    requires Inv(w) && (op.MoveConstruct? || op.MoveAssign?) && Enabled(w, op)
    ensures var w' := Step(w, op);
            && Length(w'.heap, w'.buffers[op.from]) == 0
            && Capacity(w'.heap, w'.buffers[op.from]) == INLINE_CAPACITY
            && (op.b != op.from ==>
                  && w'.buffers[op.b] == w.buffers[op.from]
                  && Length(w'.heap, w'.buffers[op.b]) == Length(w.heap, w.buffers[op.from])
                  && Capacity(w'.heap, w'.buffers[op.b]) == Capacity(w.heap, w.buffers[op.from]))
  {
    EmptyIsShort(w.buffers[op.from]);
    if op.MoveAssign? && op.b != op.from {
      OwnsEntry(w.buffers, op.b);
      OwnsEntry(w.buffers, op.from);
      OtherKept(Owns(w.buffers), w.heap, op.b, w.buffers[op.b], op.from, w.buffers[op.from]);
    }
  }

  // ----- Runs -----

  lemma StepAllFit(w: World, op: Op)
    requires Inv(w) && Enabled(w, op)
    ensures AllFit(Step(w, op))
  {
    forall c | c in Step(w, op).buffers
      ensures Fits(Step(w, op).heap, Step(w, op).buffers[c])
    {
      if op.SetLength? {
        OwnedIsLive(w, op.b);
        LengthFits(w, op.b, op.n, c);
      } else if op.IncreaseLengthBy? {
        OwnedIsLive(w, op.b);
        IncreaseIsSet(w, op.b, op.n);
        LengthFits(w, op.b, Length(w.heap, w.buffers[op.b]) + op.n, c);
      } else {
        StepFits(w, op, c);
      }
    }
  }

  lemma OwnedIsLive(w: World, b: nat)
    requires Inv(w) && b in w.buffers
    ensures IsShort(w.buffers[b]) || Pointer(w.buffers[b]) in w.heap.live
  {
    assert !IsShort(w.buffers[b]) ==> b in Owns(w.buffers) && Owns(w.buffers)[b] == Pointer(w.buffers[b]);
  }

  lemma StepKeepsInv(w: World, op: Op)
    requires Inv(w) && Enabled(w, op)
    ensures Inv(Step(w, op))
  {
    StepSound(w, op, Step(w, op));
    StepAllFit(w, op);
  }

  const START := World(map[], EMPTY_HEAP)

  // The worlds that a list of operations, each one permitted, leads through.
  ghost predicate IsRun(w: World, ops: seq<Op>, w': World)
    decreases |ops|
  {
    if ops == [] then w == w'
    else Enabled(w, ops[0]) && IsRun(Step(w, ops[0]), ops[1..], w')
  }

  // Every operation of the list is permitted when its turn comes.
  predicate Permitted(w: World, ops: seq<Op>)
    decreases |ops|
  {
    ops == [] || (Enabled(w, ops[0]) && Permitted(Step(w, ops[0]), ops[1..]))
  }

  // The world that such a list leads to.
  function Final(w: World, ops: seq<Op>): World
    requires Permitted(w, ops)
    decreases |ops|
  {
    if ops == [] then w else Final(Step(w, ops[0]), ops[1..])
  }

  lemma {:induction false} PermittedIsRun(w: World, ops: seq<Op>)
    requires Permitted(w, ops)
    ensures IsRun(w, ops, Final(w, ops))
    decreases |ops|
  {
    if ops != [] {
      PermittedIsRun(Step(w, ops[0]), ops[1..]);
    }
  }

  lemma {:induction false} RunKeepsInv(w: World, ops: seq<Op>, w': World)
    requires Inv(w) && IsRun(w, ops, w')
    ensures Inv(w')
    decreases |ops|
  {
    if ops != [] {
      StepKeepsInv(w, ops[0]);
      RunKeepsInv(Step(w, ops[0]), ops[1..], w');
    }
  }

  // The buffer b holds the node with serial number k.
  predicate Owner(w: World, b: nat, k: nat)
  {
    && b in w.buffers && !IsShort(w.buffers[b])
    && Pointer(w.buffers[b]) in w.heap.live && w.heap.live[Pointer(w.buffers[b])].serial == k
  }

  ghost predicate HasOwner(w: World, k: nat)
  {
    exists b :: Owner(w, b, k)
  }

  lemma StartInv()
    ensures Inv(START)
  {
    assert Owns(map[]) == map[];
  }

  lemma OwnersUnique(w: World, b: nat, c: nat, k: nat)
    requires Inv(w) && Owner(w, b, k) && Owner(w, c, k)
    ensures b == c && k !in w.heap.freed && k !in w.heap.handed
  {
    var owns := Owns(w.buffers);
    assert b in owns && owns[b] == Pointer(w.buffers[b]);
    assert c in owns && owns[c] == Pointer(w.buffers[c]);
  }

  lemma OwnerExists(w: World, k: nat)
    requires Inv(w) && k < w.heap.next && k !in w.heap.freed && k !in w.heap.handed
    ensures HasOwner(w, k)
  {
    assert HasNode(w.heap, k);
    var p :| p in w.heap.live && w.heap.live[p].serial == k;
    assert p in Owns(w.buffers).Values;
    var b :| b in Owns(w.buffers) && Owns(w.buffers)[b] == p;
    assert Owner(w, b, k);
  }

  lemma FateCounts(h: Heap, k: nat)
    requires HeapOk(h)
    ensures h.freed[k] + h.handed[k] <= 1
    ensures h.freed[k] + h.handed[k] == 0 <==> k !in h.freed && k !in h.handed
  {
  }

  // The node was freed once, or was handed out once, or is held by one buffer, and only one of these.
  ghost predicate HasOneFate(w: World, k: nat)
  {
    && w.heap.freed[k] + w.heap.handed[k] <= 1
    && (w.heap.freed[k] + w.heap.handed[k] == 0 <==> HasOwner(w, k))
    && (forall b, c :: Owner(w, b, k) && Owner(w, c, k) ==> b == c)
  }

  lemma FateOf(w: World, k: nat)
    requires Inv(w) && k < w.heap.next
    ensures HasOneFate(w, k)
  {
    FateCounts(w.heap, k);
    forall b, c | Owner(w, b, k) && Owner(w, c, k)
      ensures b == c && k !in w.heap.freed && k !in w.heap.handed
    {
      OwnersUnique(w, b, c, k);
    }
    if k !in w.heap.freed && k !in w.heap.handed {
      OwnerExists(w, k);
    }
  }

  lemma RunInv(ops: seq<Op>, w: World)
    requires IsRun(START, ops, w)
    ensures Inv(w) && !w.heap.fault
  {
    StartInv();
    RunKeepsInv(START, ops, w);
  }

  // In every run, no node is accessed after it was freed, none is freed with a wrong size, and
  // every node allocated so far has one fate.
  lemma OneFate(ops: seq<Op>, w: World, k: nat)
    requires IsRun(START, ops, w) && k < w.heap.next
    ensures !w.heap.fault && HasOneFate(w, k)
  {
    RunInv(ops, w);
    FateOf(w, k);
  }

  // Every node allocated so far was freed once or handed out once.
  ghost predicate Settled(h: Heap)
  {
    forall k: nat :: k < h.next ==> h.freed[k] + h.handed[k] == 1
  }

  // Once all buffers are gone nothing is leaked.
  lemma NoLeak(ops: seq<Op>, w: World)
    requires IsRun(START, ops, w) && w.buffers == map[]
    ensures Settled(w.heap)
  {
    forall k: nat | k < w.heap.next
      ensures w.heap.freed[k] + w.heap.handed[k] == 1
    {
      OneFate(ops, w, k);
    }
  }
}
