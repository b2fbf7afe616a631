// CordRepBtreeNavigator (absl/strings/internal/cord_rep_btree_navigator.h): a path from the top
// of a B-tree to one data edge, kept in two fixed arrays, that moves along the data edges.
module CordNavigator {
  import opened CordRep
  import opened Options

  // ----- Paths -----

  // r is a node of height l and i is the position of one of its edges.
  ghost predicate AtLevel(r: Rep, i: nat, l: nat)
  {
    IsNode(r) && r.height == l && r.begin <= i < r.end
  }

  // The levels low, ..., high of the arrays hold nodes of those heights, each the selected edge
  // of the one above.
  ghost predicate OnPath(nodes: seq<Rep>, index: seq<nat>, low: nat, high: nat)
    decreases high - low
  {
    && |nodes| == |index| == MAX_DEPTH && low <= high < MAX_DEPTH
    && AtLevel(nodes[low], index[low], low)
    && (low < high ==> OnPath(nodes, index, low + 1, high) && nodes[low + 1].edges[index[low + 1]] == nodes[low])
  }

  // The chunks to the left of the path at the levels low, ..., high.
  ghost function Left(nodes: seq<Rep>, index: seq<nat>, low: nat, high: nat): seq<Chunk>
    requires OnPath(nodes, index, low, high)
    decreases high - low
  {
    (if low == high then [] else Left(nodes, index, low + 1, high)) + ChunksBelow(nodes[low], index[low])
  }

  lemma ChildFacts(r: Rep, i: nat)
    requires IsNode(r) && r.begin <= i < r.end
    ensures WellFormed(r.edges[i])
    ensures r.height == 0 ==> r.edges[i].Data? && r.edges[i].bytes != ""
    ensures r.height > 0 ==> IsNode(r.edges[i]) && r.edges[i].height == r.height - 1
  {
  }

  // A path and what is left of it depend on the levels spanned only.
  lemma {:induction false} PathFrame(nodes: seq<Rep>, index: seq<nat>, nodes': seq<Rep>, index': seq<nat>,
                                     low: nat, high: nat)
    requires OnPath(nodes, index, low, high) && |nodes'| == |index'| == MAX_DEPTH
    requires forall l :: low <= l <= high ==> nodes[l] == nodes'[l] && index[l] == index'[l]
    ensures OnPath(nodes', index', low, high)
    ensures Left(nodes, index, low, high) == Left(nodes', index', low, high)
    decreases high - low
  {
    if low < high {
      PathFrame(nodes, index, nodes', index', low + 1, high);
    }
  }

  // The levels of a path from mid upwards.
  lemma {:induction false} UpperPath(nodes: seq<Rep>, index: seq<nat>, low: nat, mid: nat, high: nat)
    requires OnPath(nodes, index, low, high) && low <= mid <= high
    ensures OnPath(nodes, index, mid, high)
    decreases mid - low
  {
    if low < mid {
      UpperPath(nodes, index, low + 1, mid, high);
    }
  }

  // One more level at the bottom: the edge selected so far, opened at its edge i.
  lemma ExtendDown(nodes: seq<Rep>, index: seq<nat>, low: nat, high: nat, i: nat)
    requires OnPath(nodes, index, low, high) && 0 < low
    requires var child := nodes[low].edges[index[low]]; IsNode(child) ==> child.begin <= i < child.end
    ensures var child := nodes[low].edges[index[low]];
            var nodes', index' := nodes[low - 1 := child], index[low - 1 := i];
            && IsNode(child)
            && OnPath(nodes', index', low - 1, high)
            && Left(nodes', index', low - 1, high) == Left(nodes, index, low, high) + ChunksBelow(child, i)
  {
    ChildFacts(nodes[low], index[low]);
    var child := nodes[low].edges[index[low]];
    PathFrame(nodes, index, nodes[low - 1 := child], index[low - 1 := i], low, high);
  }

  // What is left of the path and the selected edge are a prefix of the tree.
  lemma {:induction false} PathPrefix(nodes: seq<Rep>, index: seq<nat>, low: nat, high: nat)
    requires OnPath(nodes, index, low, high)
    ensures WellFormed(nodes[low].edges[index[low]]) && IsNode(nodes[high])
    ensures Left(nodes, index, low, high) + Chunks(nodes[low].edges[index[low]]) <= Chunks(nodes[high])
    decreases high - low
  {
    var r, i := nodes[low], index[low];
    ChildFacts(r, i);
    BelowPrefix(r, i + 1, r.end);
    var upper := if low == high then [] else Left(nodes, index, low + 1, high);
    if low < high {
      PathPrefix(nodes, index, low + 1, high);
    }
    PrefixUnder(upper, ChunksBelow(r, i), Chunks(r.edges[i]), Chunks(r), Chunks(nodes[high]));
  }

  lemma PrefixUnder<T>(a: seq<T>, b: seq<T>, c: seq<T>, d: seq<T>, e: seq<T>)
    requires b + c <= d && a + d <= e
    ensures a + b + c <= e
  {
    assert a + b + c == a + (b + c) == (a + d)[..|a + b + c|];
  }

  predicate AtFront(r: Rep, i: nat)
  {
    r.Btree? && i == r.begin
  }

  predicate AtBack(r: Rep, i: nat)
  {
    r.Btree? && i + 1 == r.end
  }

  // Below mid the path takes the first edges: nothing is passed there.
  lemma {:induction false} LeftOfFront(nodes: seq<Rep>, index: seq<nat>, mid: nat, high: nat)
    requires OnPath(nodes, index, 0, high) && mid <= high
    requires forall l :: 0 <= l < mid ==> AtFront(nodes[l], index[l])
    ensures OnPath(nodes, index, mid, high)
    ensures Left(nodes, index, 0, high) == Left(nodes, index, mid, high)
  {
    UpperPath(nodes, index, 0, mid, high);
    if mid > 0 {
      UpperPath(nodes, index, 0, mid - 1, high);
      LeftOfFront(nodes, index, mid - 1, high);
    }
  }

  // Below mid the path takes the last edges: then it covers, with its data edge, all of what is
  // selected at mid.
  lemma {:induction false} LeftOfBack(nodes: seq<Rep>, index: seq<nat>, mid: nat, high: nat)
    requires OnPath(nodes, index, 0, high) && mid <= high
    requires forall l :: 0 <= l < mid ==> AtBack(nodes[l], index[l])
    ensures OnPath(nodes, index, mid, high)
    ensures WellFormed(nodes[0].edges[index[0]]) && WellFormed(nodes[mid].edges[index[mid]])
    ensures Left(nodes, index, 0, high) + Chunks(nodes[0].edges[index[0]])
         == Left(nodes, index, mid, high) + Chunks(nodes[mid].edges[index[mid]])
  {
    UpperPath(nodes, index, 0, mid, high);
    ChildFacts(nodes[mid], index[mid]);
    if mid > 0 {
      LeftOfBack(nodes, index, mid - 1, high);
      var upper, r, i := Left(nodes, index, mid, high), nodes[mid - 1], index[mid - 1];
      ClimbStep(upper, r, i);
    }
  }

  // Moving the lowest level of a path to its next edge passes the edge that was selected.
  lemma AdvanceAt(nodes: seq<Rep>, index: seq<nat>, mid: nat, high: nat)
    requires OnPath(nodes, index, mid, high) && index[mid] + 1 < nodes[mid].end
    ensures WellFormed(nodes[mid].edges[index[mid]])
    ensures var index' := index[mid := index[mid] + 1];
            && OnPath(nodes, index', mid, high)
            && Left(nodes, index', mid, high) == Left(nodes, index, mid, high) + Chunks(nodes[mid].edges[index[mid]])
  {
    ChildFacts(nodes[mid], index[mid]);
    if mid < high {
      PathFrame(nodes, index, nodes, index[mid := index[mid] + 1], mid + 1, high);
    }
  }

  // Moving it to the previous edge takes that edge back.
  lemma RetreatAt(nodes: seq<Rep>, index: seq<nat>, mid: nat, high: nat)
    requires OnPath(nodes, index, mid, high) && nodes[mid].begin < index[mid]
    ensures var index' := index[mid := index[mid] - 1];
            && OnPath(nodes, index', mid, high)
            && WellFormed(nodes[mid].edges[index'[mid]])
            && Left(nodes, index, mid, high) == Left(nodes, index', mid, high) + Chunks(nodes[mid].edges[index'[mid]])
  {
    ChildFacts(nodes[mid], index[mid] - 1);
    if mid < high {
      PathFrame(nodes, index, nodes, index[mid := index[mid] - 1], mid + 1, high);
    }
  }

  lemma ClimbStep(upper: seq<Chunk>, r: Rep, i: nat)
    requires IsNode(r) && r.begin <= i < r.end && i + 1 == r.end
    ensures WellFormed(r.edges[i])
    ensures upper + ChunksBelow(r, i) + Chunks(r.edges[i]) == upper + Chunks(r)
  {
    ChildFacts(r, i);
  }

  // ----- The navigator -----

  datatype Position = Position(edge: Rep, offset: nat)

  class CordRepBtreeNavigator {
    var height: int
    const index: array<nat>
    const node: array<Rep>

    ghost predicate Valid()
      reads this, index, node
    {
      && index.Length == node.Length == MAX_DEPTH
      && -1 <= height < MAX_DEPTH
      && (height >= 0 ==> OnPath(node[..], index[..], 0, height))
    }

    predicate IsEmpty()
      reads this
    {
      height < 0
    }

    // The tree navigated.
    ghost function Tree(): (r: Rep)
      requires Valid() && !IsEmpty()
      reads this, index, node
      ensures IsNode(r)
    {
      PathPrefix(node[..], index[..], 0, height);
      node[height]
    }

    // The data edge of the current position.
    ghost function Current(): (r: Rep)
      requires Valid() && !IsEmpty()
      reads this, index, node
      ensures r.Data? && r.bytes != ""
    {
      ChildFacts(node[0], index[0]);
      node[0].edges[index[0]]
    }

    // The data edges in front of the current one.
    ghost function Passed(): (p: seq<Chunk>)
      requires Valid() && !IsEmpty()
      reads this, index, node
      ensures p + [Current().bytes] <= Chunks(Tree())
    {
      PathPrefix(node[..], index[..], 0, height);
      Left(node[..], index[..], 0, height)
    }

    constructor ()
      ensures Valid() && IsEmpty()
      ensures fresh(index) && fresh(node)
    {
      height := -1;
      index := new nat[MAX_DEPTH];
      node := new Rep[MAX_DEPTH];
    }

    // Descends from the edge selected at level h0 to its first or to its last data edge.
    method Dive(h0: nat, front: bool) returns (edge: Rep)
      requires index.Length == node.Length == MAX_DEPTH && 0 <= height < MAX_DEPTH
      requires OnPath(node[..], index[..], h0, height)
      modifies index, node
      ensures Valid() && edge == Current()
      ensures forall l :: h0 <= l <= height ==> node[l] == old(node[l]) && index[l] == old(index[l])
      ensures front ==> Passed() == old(Left(node[..], index[..], h0, height))
      ensures !front ==> WellFormed(old(node[h0].edges[index[h0]]))
      ensures !front ==>
        Passed() + [edge.bytes] == old(Left(node[..], index[..], h0, height)) + Chunks(old(node[h0].edges[index[h0]]))
    {
      var h := h0;
      ghost var start := Left(node[..], index[..], h, height);
      ChildFacts(node[h], index[h]);
      ghost var below := node[h].edges[index[h]];
      while h > 0
        invariant 0 <= h <= h0
        invariant OnPath(node[..], index[..], h, height) && WellFormed(node[h].edges[index[h]])
        invariant forall l :: h0 <= l <= height ==> node[l] == old(node[l]) && index[l] == old(index[l])
        invariant front ==> Left(node[..], index[..], h, height) == start
        invariant !front ==> Left(node[..], index[..], h, height) + Chunks(node[h].edges[index[h]]) == start + Chunks(below)
      {
        h := OpenLevel(h, front);
      }
      edge := node[0].edges[index[0]];
      ChildFacts(node[0], index[0]);
    }

    // One level further down.
    method OpenLevel(h0: nat, front: bool) returns (h: nat)
      requires index.Length == node.Length == MAX_DEPTH && 0 <= height < MAX_DEPTH
      requires OnPath(node[..], index[..], h0, height) && h0 > 0
      modifies index, node
      ensures h == h0 - 1
      ensures OnPath(node[..], index[..], h, height) && WellFormed(node[h].edges[index[h]])
      ensures forall l :: h0 <= l <= height ==> node[l] == old(node[l]) && index[l] == old(index[l])
      ensures front ==> Left(node[..], index[..], h, height) == old(Left(node[..], index[..], h0, height))
      ensures WellFormed(old(node[h0].edges[index[h0]]))
      ensures !front ==>
        var was := old(Left(node[..], index[..], h0, height)) + Chunks(old(node[h0].edges[index[h0]]));
        Left(node[..], index[..], h, height) + Chunks(node[h].edges[index[h]]) == was
    {
      ghost var nodes, indices := node[..], index[..];
      ChildFacts(node[h0], index[h0]);
      var child := node[h0].edges[index[h0]];
      var i: nat := if front then child.begin else child.end - 1;
      h := h0 - 1;
      node[h] := child;
      index[h] := i;
      ExtendDown(nodes, indices, h0, height, i);
      assert node[..] == nodes[h := child] && index[..] == indices[h := i];
      if !front {
        ClimbStep(Left(nodes, indices, h0, height), child, i);
      } else {
        ChildFacts(child, i);
      }
    }

    // Resets to the first or to the last data edge of `tree`.
    method Init(tree: Rep, front: bool) returns (edge: Rep)
      requires Valid() && IsNode(tree)
      modifies this, index, node
      ensures Valid() && !IsEmpty() && Tree() == tree && edge == Current()
      ensures front ==> Passed() == []
      ensures !front ==> Passed() + [edge.bytes] == Chunks(tree)
    {
      height := tree.height;
      node[height] := tree;
      index[height] := if front then tree.begin else tree.end - 1;
      if !front {
        ClimbStep([], tree, index[height]);
      }
      edge := Dive(height, front);
    }

    // The next data edge, or None at the last one, where the position stays.
    method Next() returns (edge: Option<Rep>)
      requires Valid() && !IsEmpty()
      modifies index, node
      ensures Valid() && Tree() == old(Tree())
      ensures edge.None? <==> old(Passed()) + [old(Current()).bytes] == Chunks(Tree())
      ensures edge.None? ==> Passed() == old(Passed()) && Current() == old(Current())
      ensures edge.Some? ==> edge.value == Current() && Passed() == old(Passed()) + [old(Current()).bytes]
    {
      ghost var current := Current();
      ghost var passed := Passed();
      if AtBack(node[0], index[0]) {
        edge := NextUp();
      } else {
        AdvanceAt(node[..], index[..], 0, height);
        ghost var indices := index[..];
        index[0] := index[0] + 1;
        assert index[..] == indices[0 := index[0]];
        assert Chunks(current) == [current.bytes];
        assert |Passed()| == |passed| + 1;
        edge := Some(node[0].edges[index[0]]);
      }
    }

    // Climbs to the first level with a next edge and dives to the first data edge below it.
    method NextUp() returns (edge: Option<Rep>)
      requires Valid() && !IsEmpty() && AtBack(node[0], index[0])
      modifies index, node
      ensures Valid() && Tree() == old(Tree())
      ensures edge.None? <==> old(Passed()) + [old(Current()).bytes] == Chunks(Tree())
      ensures edge.None? ==> Passed() == old(Passed()) && Current() == old(Current())
      ensures edge.Some? ==> edge.value == Current() && Passed() == old(Passed()) + [old(Current()).bytes]
    {
      ghost var nodes, indices := node[..], index[..];
      assert Chunks(Current()) == [Current().bytes];
      var h := 1;
      while h <= height && AtBack(node[h], index[h])
        invariant 1 <= h <= height + 1
        invariant forall l :: 0 <= l < h ==> AtBack(nodes[l], indices[l])
      {
        h := h + 1;
      }
      if h > height {
        LeftOfBack(nodes, indices, height, height);
        ClimbStep([], nodes[height], indices[height]);
        return None;
      }
      LeftOfBack(nodes, indices, h, height);
      AdvanceAt(nodes, indices, h, height);
      index[h] := index[h] + 1;
      assert index[..] == indices[h := indices[h] + 1];
      var next := Dive(h, true);
      edge := Some(next);
    }

    // The previous data edge, or None at the first one, where the position stays.
    method Previous() returns (edge: Option<Rep>)
      requires Valid() && !IsEmpty()
      modifies index, node
      ensures Valid() && Tree() == old(Tree())
      ensures edge.None? <==> old(Passed()) == []
      ensures edge.None? ==> Passed() == old(Passed()) && Current() == old(Current())
      ensures edge.Some? ==> edge.value == Current() && Passed() + [edge.value.bytes] == old(Passed())
    {
      if AtFront(node[0], index[0]) {
        edge := PreviousUp();
      } else {
        RetreatAt(node[..], index[..], 0, height);
        ghost var indices := index[..];
        ChildFacts(node[0], index[0] - 1);
        index[0] := index[0] - 1;
        assert index[..] == indices[0 := index[0]];
        edge := Some(node[0].edges[index[0]]);
      }
    }

    method PreviousUp() returns (edge: Option<Rep>)
      requires Valid() && !IsEmpty() && AtFront(node[0], index[0])
      modifies index, node
      ensures Valid() && Tree() == old(Tree())
      ensures edge.None? <==> old(Passed()) == []
      ensures edge.None? ==> Passed() == old(Passed()) && Current() == old(Current())
      ensures edge.Some? ==> edge.value == Current() && Passed() + [edge.value.bytes] == old(Passed())
    {
      ghost var nodes, indices := node[..], index[..];
      var h := 1;
      while h <= height && AtFront(node[h], index[h])
        invariant 1 <= h <= height + 1
        invariant forall l :: 0 <= l < h ==> AtFront(nodes[l], indices[l])
      {
        h := h + 1;
      }
      if h > height {
        LeftOfFront(nodes, indices, height, height);
        return None;
      }
      LeftOfFront(nodes, indices, h, height);
      UpperPath(nodes, indices, 0, h, height);
      RetreatAt(nodes, indices, h, height);
      index[h] := index[h] - 1;
      assert index[..] == indices[h := indices[h] - 1];
      var previous := Dive(h, false);
      edge := Some(previous);
    }

    // The data edge that holds the byte at `offset`, and where in it. None past the end, where
    // the position stays.
    method Seek(offset: nat) returns (position: Option<Position>)
      requires Valid() && !IsEmpty()
      modifies index, node
      ensures Valid() && Tree() == old(Tree())
      ensures position.None? <==> offset >= Length(Tree())
      ensures position.None? ==> Passed() == old(Passed()) && Current() == old(Current())
      ensures position.Some? ==>
        && position.value.edge == Current() && position.value.offset < |Current().bytes|
        && |Flat(Passed())| + position.value.offset == offset
    {
      ghost var tree := Tree();
      var h: nat := height;
      ghost var nodes, indices := node[..], index[..];
      PathPrefix(nodes, indices, 0, height);
      UpperPath(nodes, indices, 0, height, height);
      if offset >= node[h].length {
        return None;
      }
      var i: nat, n: nat := IndexOf(node[h], offset);
      index[h] := i;
      assert index[..] == indices[h := i];
      LengthBelowIsContent(tree, i);
      assert Left(node[..], index[..], h, height) == ChunksBelow(tree, i);
      while h > 0
        invariant 0 <= h <= height
        invariant OnPath(node[..], index[..], h, height) && node[height] == tree && i == index[h]
        invariant n < Length(node[h].edges[i])
        invariant |Flat(Left(node[..], index[..], h, height))| + n == offset
      {
        h, i, n := SeekLevel(h, n);
      }
      ChildFacts(node[0], i);
      position := Some(Position(node[0].edges[i], n));
    }

    // One level of the descent: n is the offset inside the edge selected at level h0.
    method SeekLevel(h0: nat, n0: nat) returns (h: nat, i: nat, n: nat)
      requires index.Length == node.Length == MAX_DEPTH && 0 <= height < MAX_DEPTH
      requires OnPath(node[..], index[..], h0, height) && h0 > 0
      requires n0 < Length(node[h0].edges[index[h0]])
      modifies index, node
      ensures h == h0 - 1 && OnPath(node[..], index[..], h, height) && i == index[h]
      ensures node[height] == old(node[height])
      ensures n < Length(node[h].edges[i])
      ensures |Flat(Left(node[..], index[..], h, height))| + n == |Flat(old(Left(node[..], index[..], h0, height)))| + n0
    {
      ghost var nodes, indices := node[..], index[..];
      ChildFacts(node[h0], index[h0]);
      var child := node[h0].edges[index[h0]];
      h := h0 - 1;
      node[h] := child;
      i, n := IndexOf(child, n0);
      index[h] := i;
      ExtendDown(nodes, indices, h0, height, i);
      assert node[..] == nodes[h := child] && index[..] == indices[h := i];
      LengthBelowIsContent(child, i);
      FlatAppend(Left(nodes, indices, h0, height), ChunksBelow(child, i));
    }
  }

  // CordRepBtree::IndexOf: the edge of a node that holds the byte at `offset`, and where in it.
  method IndexOf(r: Rep, offset: nat) returns (i: nat, n: nat)
    requires IsNode(r) && offset < r.length
    ensures r.begin <= i < r.end && n < Length(r.edges[i])
    ensures LengthBelow(r, i) + n == offset
  {
    i, n := r.begin, offset;
    while n >= Length(r.edges[i])
      invariant r.begin <= i < r.end && LengthBelow(r, i) + n == offset
      decreases r.end - i
    {
      n := n - Length(r.edges[i]);
      i := i + 1;
    }
  }
}
