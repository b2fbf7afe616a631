// ConstructRange and CopyRange of absl/memory/memory.h: elements are constructed one by one,
// and when a constructor throws, those already constructed are destroyed, last one first.
module Ranges {
  import opened Options

  datatype Slot<T> = Raw | Live(value: T)

  // What the allocator did, in order.
  datatype Event<T> = Constructed(index: nat, value: T) | Destroyed(index: nat)

  // ----- What a log of events does to memory -----

  // Only raw memory can be constructed in, only an existing element can be destroyed.
  function Apply<T>(memory: seq<Slot<T>>, e: Event<T>): Option<seq<Slot<T>>>
  {
    match e
    case Constructed(i, v) => if i < |memory| && memory[i].Raw? then Some(memory[i := Live(v)]) else None
    case Destroyed(i) => if i < |memory| && memory[i].Live? then Some(memory[i := Raw]) else None
  }

  function Replay<T>(memory: seq<Slot<T>>, log: seq<Event<T>>): Option<seq<Slot<T>>>
  {
    if log == [] then Some(memory)
    else
      match Replay(memory, log[..|log| - 1])
      case None => None
      case Some(m) => Apply(m, log[|log| - 1])
  }

  // The construction of `values` from position `first` on.
  function Constructions<T>(first: nat, values: seq<T>): (e: seq<Event<T>>)
    ensures |e| == |values|
  {
    seq(|values|, i requires 0 <= i < |values| => Constructed(first + i, values[i]))
  }

  // The destruction of the n elements from position `first` on, the last one first.
  function Rollback<T>(first: nat, n: nat): (e: seq<Event<T>>)
    ensures |e| == n
  {
    seq(n, i requires 0 <= i < n => Destroyed(first + n - 1 - i))
  }

  ghost predicate RawRange<T>(memory: seq<Slot<T>>, first: nat, n: nat)
  {
    first + n <= |memory| && forall i :: first <= i < first + n ==> memory[i].Raw?
  }

  // The memory with `values` living from position `first` on.
  function Filled<T>(memory: seq<Slot<T>>, first: nat, values: seq<T>): (m: seq<Slot<T>>)
    requires first + |values| <= |memory|
    ensures |m| == |memory|
  {
    seq(|memory|, i requires 0 <= i < |memory| =>
      if first <= i < first + |values| then Live(values[i - first]) else memory[i])
  }

  // n times the same value.
  function Copies<T>(n: nat, value: T): (s: seq<T>)
    ensures |s| == n && forall i :: 0 <= i < n ==> s[i] == value
  {
    if n == 0 then [] else Copies(n - 1, value) + [value]
  }

  // One more element.
  lemma ConstructOneMore<T>(memory: seq<Slot<T>>, first: nat, values: seq<T>, v: T)
    requires first + |values| < |memory|
    ensures Filled(memory, first, values + [v]) == Filled(memory, first, values)[first + |values| := Live(v)]
    ensures Constructions(first, values + [v]) == Constructions(first, values) + [Constructed(first + |values|, v)]
  {
  }

  lemma {:induction false} ConstructionsFill<T>(memory: seq<Slot<T>>, first: nat, values: seq<T>)
    requires RawRange(memory, first, |values|)
    ensures Replay(memory, Constructions(first, values)) == Some(Filled(memory, first, values))
  {
    if values == [] {
      assert Filled(memory, first, values) == memory;
    } else {
      var n := |values| - 1;
      ConstructionsFill(memory, first, values[..n]);
      assert values[..n] + [values[n]] == values;
      ConstructOneMore(memory, first, values[..n], values[n]);
      assert Constructions(first, values)[..n] == Constructions(first, values[..n]);
    }
  }

  lemma {:induction false} ReplayAppend<T>(memory: seq<Slot<T>>, a: seq<Event<T>>, b: seq<Event<T>>)
    requires Replay(memory, a).Some?
    ensures Replay(memory, a + b) == Replay(Replay(memory, a).value, b)
  {
    if b == [] {
      assert a + b == a;
    } else {
      assert (a + b)[..|a + b| - 1] == a + b[..|b| - 1];
      ReplayAppend(memory, a, b[..|b| - 1]);
    }
  }

  // The last element goes first: n destructions are one and n - 1 more.
  lemma {:induction false} RollbackEmpties<T>(memory: seq<Slot<T>>, first: nat, values: seq<T>)
    requires RawRange(memory, first, |values|)
    ensures Replay(Filled(memory, first, values), Rollback(first, |values|)) == Some(memory)
  {
    if values == [] {
      assert Filled(memory, first, values) == memory;
    } else {
      var n := |values| - 1;
      var full := Filled(memory, first, values);
      var rest := Filled(memory, first, values[..n]);
      var one := [Destroyed(first + n)];
      assert Rollback(first, |values|) == one + Rollback(first, n);
      assert full[first + n := Raw] == rest;
      assert Replay(full, one[..0]) == Some(full);
      ReplayAppend(full, one, Rollback(first, n));
      RollbackEmpties(memory, first, values[..n]);
    }
  }

  // Constructing any values and rolling them back is legal at every event and changes nothing.
  lemma RollbackRestores<T>(memory: seq<Slot<T>>, first: nat, values: seq<T>)
    requires RawRange(memory, first, |values|)
    ensures Replay(memory, Constructions(first, values) + Rollback(first, |values|)) == Some(memory)
  {
    ConstructionsFill(memory, first, values);
    ReplayAppend(memory, Constructions(first, values), Rollback(first, |values|));
    RollbackEmpties(memory, first, values);
  }

  // ----- The code -----

  class Allocator<T> {
    const memory: array<Slot<T>>
    var log: seq<Event<T>>

    constructor (memory: array<Slot<T>>)
      ensures this.memory == memory && log == []
    {
      this.memory := memory;
      log := [];
    }

    // The element's constructor may throw; then there is no element.
    method Construct(i: nat, v: T, throws: bool) returns (thrown: bool)
      requires i < memory.Length && memory[i].Raw?
      modifies memory, this
      ensures thrown == throws
      ensures memory[..] == if throws then old(memory[..]) else old(memory[..])[i := Live(v)]
      ensures log == if throws then old(log) else old(log) + [Constructed(i, v)]
    {
      if !throws {
        memory[i] := Live(v);
        log := log + [Constructed(i, v)];
      }
      thrown := throws;
    }

    method Destroy(i: nat)
      requires i < memory.Length && memory[i].Live?
      modifies memory, this
      ensures memory[..] == old(memory[..])[i := Raw]
      ensures log == old(log) + [Destroyed(i)]
    {
      memory[i] := Raw;
      log := log + [Destroyed(i)];
    }
  }

  // The first position in [first, last) whose constructor throws; `last` when there is none.
  function FirstThrow(throws: nat -> bool, first: nat, last: nat): (p: nat)
    requires first <= last
    ensures first <= p <= last
    ensures forall i :: first <= i < p ==> !throws(i)
    ensures p < last ==> throws(p)
    decreases last - first
  {
    if first == last || throws(first) then first else FirstThrow(throws, first + 1, last)
  }

  // The handler of both loops: backwards from the element that failed.
  method Unwind<T>(alloc: Allocator<T>, first: nat, end: nat, ghost before: seq<Slot<T>>, ghost values: seq<T>)
    requires first + |values| == end && RawRange(before, first, |values|)
    requires alloc.memory[..] == Filled(before, first, values)
    modifies alloc, alloc.memory
    ensures alloc.memory[..] == before
    ensures alloc.log == old(alloc.log) + Rollback(first, |values|)
    ensures |alloc.log| == |old(alloc.log)| + (end - first) && old(alloc.log) <= alloc.log
    ensures forall k :: |old(alloc.log)| <= k < |alloc.log| ==>
      alloc.log[k] == Destroyed(end - 1 - (k - |old(alloc.log)|))
  {
    var cur := end;
    while cur != first
      invariant first <= cur <= end <= alloc.memory.Length
      invariant alloc.memory[..] == Filled(before, first, values[..cur - first])
      invariant alloc.log == old(alloc.log) + Rollback(first, |values|)[..end - cur]
    {
      cur := cur - 1;
      alloc.Destroy(cur);
      assert alloc.memory[..] == Filled(before, first, values[..cur - first]);
      assert Rollback<T>(first, |values|)[..end - cur] == Rollback(first, |values|)[..end - cur - 1] + [Destroyed(cur)];
    }
    assert Filled(before, first, values[..0]) == before;
  }

  lemma {:induction false} FirstThrowUnique(throws: nat -> bool, first: nat, last: nat, p: nat)
    requires first <= p <= last && (p < last ==> throws(p))
    requires forall i :: first <= i < p ==> !throws(i)
    ensures FirstThrow(throws, first, last) == p
    decreases last - first
  {
    if first < p {
      FirstThrowUnique(throws, first + 1, last, p);
    }
  }

  // `values` were constructed from position `first` on.
  ghost predicate Progress<T>(memory: seq<Slot<T>>, log: seq<Event<T>>, before: seq<Slot<T>>, start: seq<Event<T>>,
                              first: nat, values: seq<T>)
  {
    && first + |values| <= |before|
    && memory == Filled(before, first, values)
    && log == start + Constructions(first, values)
  }

  lemma ProgressStep<T>(memory: seq<Slot<T>>, log: seq<Event<T>>, before: seq<Slot<T>>, start: seq<Event<T>>,
                        first: nat, values: seq<T>, v: T)
    requires Progress(memory, log, before, start, first, values)
    requires RawRange(before, first, |values| + 1)
    ensures |memory| == |before| && memory[first + |values|].Raw?
    ensures var i := first + |values|;
            Progress(memory[i := Live(v)], log + [Constructed(i, v)], before, start, first, values + [v])
  {
    ConstructOneMore(before, first, values, v);
  }

  lemma ProgressStart<T>(memory: seq<Slot<T>>, log: seq<Event<T>>, first: nat)
    requires first <= |memory|
    ensures Progress(memory, log, memory, log, first, [])
  {
    assert Filled(memory, first, []) == memory;
  }

  // One more element, or, when its constructor throws, none at all.
  method AddOne<T>(alloc: Allocator<T>, first: nat, cur: nat, v: T, throws: bool,
                    ghost before: seq<Slot<T>>, ghost start: seq<Event<T>>, ghost done: seq<T>) returns (thrown: bool)
    requires cur == first + |done| && RawRange(before, first, |done| + 1)
    requires Progress(alloc.memory[..], alloc.log, before, start, first, done)
    modifies alloc, alloc.memory
    ensures thrown == throws
    ensures !thrown ==> Progress(alloc.memory[..], alloc.log, before, start, first, done + [v])
    ensures thrown ==> alloc.memory[..] == before
    ensures thrown ==> alloc.log == start + Constructions(first, done) + Rollback(first, |done|)
  {
    ProgressStep(alloc.memory[..], alloc.log, before, start, first, done, v);
    thrown := alloc.Construct(cur, v, throws);
    if thrown {
      Unwind(alloc, first, cur, before, done);
    }
  }

  method ConstructRange<T>(alloc: Allocator<T>, first: nat, last: nat, arg: T, throws: nat -> bool)
    returns (thrown: bool)
    requires first <= last && RawRange(alloc.memory[..], first, last - first)
    modifies alloc, alloc.memory
    ensures thrown <==> FirstThrow(throws, first, last) < last
    ensures !thrown ==>
            Progress(alloc.memory[..], alloc.log, old(alloc.memory[..]), old(alloc.log), first, Copies(last - first, arg))
    ensures thrown ==>
            var n := FirstThrow(throws, first, last) - first;
            alloc.memory[..] == old(alloc.memory[..])
            && alloc.log == old(alloc.log) + Constructions(first, Copies(n, arg)) + Rollback(first, n)
    ensures var from, n := |old(alloc.log)|, FirstThrow(throws, first, last) - first;
            && |alloc.log| == from + (if thrown then 2 * n else n) && old(alloc.log) <= alloc.log
            && (forall k :: from <= k < from + n ==> alloc.log[k] == Constructed(first + (k - from), arg))
            && (forall k :: from + n <= k < |alloc.log| ==> alloc.log[k] == Destroyed(first + n - 1 - (k - from - n)))
    ensures forall i :: 0 <= i < alloc.memory.Length ==>
      alloc.memory[i] == if !thrown && first <= i < last then Live(arg) else old(alloc.memory[i])
  {
    ghost var before, start := alloc.memory[..], alloc.log;
    ProgressStart(before, start, first);
    var cur := first;
    while cur != last
      invariant first <= cur <= last
      invariant forall i :: first <= i < cur ==> !throws(i)
      invariant Progress(alloc.memory[..], alloc.log, before, start, first, Copies(cur - first, arg))
    {
      thrown := AddOne(alloc, first, cur, arg, throws(cur), before, start, Copies(cur - first, arg));
      if thrown {
        FirstThrowUnique(throws, first, last, cur);
        return;
      }
      cur := cur + 1;
    }
    FirstThrowUnique(throws, first, last, last);
    thrown := false;
  }

  method CopyRange<T>(alloc: Allocator<T>, destination: nat, source: seq<T>, throws: nat -> bool)
    returns (thrown: bool)
    requires RawRange(alloc.memory[..], destination, |source|)
    modifies alloc, alloc.memory
    ensures thrown <==> FirstThrow(throws, destination, destination + |source|) < destination + |source|
    ensures !thrown ==>
            Progress(alloc.memory[..], alloc.log, old(alloc.memory[..]), old(alloc.log), destination, source)
    ensures thrown ==>
            var n := FirstThrow(throws, destination, destination + |source|) - destination;
            alloc.memory[..] == old(alloc.memory[..])
            && alloc.log == old(alloc.log) + Constructions(destination, source[..n]) + Rollback(destination, n)
    ensures var from, n := |old(alloc.log)|, FirstThrow(throws, destination, destination + |source|) - destination;
            && |alloc.log| == from + (if thrown then 2 * n else n) && old(alloc.log) <= alloc.log
            && (forall k :: from <= k < from + n ==>
                  alloc.log[k] == Constructed(destination + (k - from), source[k - from]))
            && (forall k :: from + n <= k < |alloc.log| ==>
                  alloc.log[k] == Destroyed(destination + n - 1 - (k - from - n)))
    ensures forall i :: 0 <= i < alloc.memory.Length ==>
      alloc.memory[i] == if !thrown && destination <= i < destination + |source| then Live(source[i - destination])
                         else old(alloc.memory[i])
  {
    ghost var before, start, done := alloc.memory[..], alloc.log, source[..0];
    ProgressStart(before, start, destination);
    var cur, first := destination, 0;
    while first != |source|
      invariant first <= |source| && cur == destination + first && done == source[..first]
      invariant forall i :: destination <= i < cur ==> !throws(i)
      invariant Progress(alloc.memory[..], alloc.log, before, start, destination, done)
    {
      thrown := AddOne(alloc, destination, cur, source[first], throws(cur), before, start, done);
      if thrown {
        FirstThrowUnique(throws, destination, destination + |source|, cur);
        return;
      }
      done := done + [source[first]];
      cur, first := cur + 1, first + 1;
    }
    FirstThrowUnique(throws, destination, destination + |source|, cur);
    thrown := false;
  }
}
