// The candidate list of StrReplaceAll (absl/strings/str_replace.h): the keys that occur in the
// text, each with its first offset, kept by insertion so that the best candidate comes last.
module StrReplace {
  import opened Options

  datatype ViableSubstitution = ViableSubstitution(key: string, replacement: string, offset: nat) {
    // Lower offset first; at the same offset, longer key first.
    predicate OccursBefore(y: ViableSubstitution)
    {
      if offset != y.offset then offset < y.offset else |key| > |y.key|
    }

    // Neither has priority over the other.
    predicate Ties(y: ViableSubstitution)
    {
      offset == y.offset && |key| == |y.key|
    }
  }

  // ----- Searching -----

  predicate OccursAt(s: string, key: string, pos: nat)
  {
    pos + |key| <= |s| && s[pos..pos + |key|] == key
  }

  // string_view::find from position pos on.
  function Find(s: string, key: string, pos: nat): (r: Option<nat>)
    ensures r.Some? ==> pos <= r.value && OccursAt(s, key, r.value)
                        && forall k: nat :: pos <= k < r.value ==> !OccursAt(s, key, k)
    ensures r.None? ==> forall k: nat :: pos <= k ==> !OccursAt(s, key, k)
    decreases |s| - pos
  {
    if pos + |key| > |s| then None
    else if OccursAt(s, key, pos) then Some(pos)
    else if pos == |s| then None
    else Find(s, key, pos + 1)
  }

  type Replacement = (string, string)

  predicate IsViable(s: string, rep: Replacement)
  {
    rep.0 != "" && Find(s, rep.0, 0).Some?
  }

  function Candidate(s: string, rep: Replacement): ViableSubstitution
    requires IsViable(s, rep)
  {
    ViableSubstitution(rep.0, rep.1, Find(s, rep.0, 0).value)
  }

  // The viable replacements in the order in which they were given.
  function Viable(s: string, reps: seq<Replacement>): seq<ViableSubstitution>
  {
    if reps == [] then []
    else
      var n := |reps| - 1;
      Viable(s, reps[..n]) + if IsViable(s, reps[n]) then [Candidate(s, reps[n])] else []
  }

  // ----- Order -----

  // Nothing in the list has priority over something behind it.
  ghost predicate Ordered(subs: seq<ViableSubstitution>)
  {
    forall i, j :: 0 <= i < j < |subs| ==> !subs[i].OccursBefore(subs[j])
  }

  // The entries that tie with x, in list order.
  function Tied(subs: seq<ViableSubstitution>, x: ViableSubstitution): seq<ViableSubstitution>
  {
    if subs == [] then []
    else
      var n := |subs| - 1;
      Tied(subs[..n], x) + if subs[n].Ties(x) then [subs[n]] else []
  }

  // The same entries, with ties in the same order.
  ghost predicate StablyReorders(subs: seq<ViableSubstitution>, original: seq<ViableSubstitution>)
  {
    forall x: ViableSubstitution :: Tied(subs, x) == Tied(original, x)
  }

  lemma {:induction false} TiedAppend(a: seq<ViableSubstitution>, b: seq<ViableSubstitution>, x: ViableSubstitution)
    ensures Tied(a + b, x) == Tied(a, x) + Tied(b, x)
  {
    if b == [] {
      assert a + b == a;
    } else {
      var n := |b| - 1;
      assert (a + b)[..|a + b| - 1] == a + b[..n];
      TiedAppend(a, b[..n], x);
    }
  }

  lemma {:induction false} TiedNone(subs: seq<ViableSubstitution>, x: ViableSubstitution)
    ensures Tied(subs, x) == [] <==> forall i :: 0 <= i < |subs| ==> !subs[i].Ties(x)
  {
    if subs != [] {
      TiedNone(subs[..|subs| - 1], x);
    }
  }

  // An insertion in front of entries that all take priority over the new one: among its ties
  // the new entry comes last.
  lemma InsertTied(prev: seq<ViableSubstitution>, index: nat, x: ViableSubstitution, y: ViableSubstitution)
    requires index <= |prev|
    requires forall k :: index <= k < |prev| ==> prev[k].OccursBefore(x)
    ensures Tied(prev[..index] + [x] + prev[index..], y) == Tied(prev + [x], y)
  {
    TiedAppend(prev[..index] + [x], prev[index..], y);
    TiedAppend(prev[..index], [x], y);
    TiedAppend(prev, [x], y);
    TiedAppend(prev[..index], prev[index..], y);
    assert prev[..index] + prev[index..] == prev;
    assert [x][..0] == [];
    if x.Ties(y) {
      TiedNone(prev[index..], y);
    }
  }

  lemma InsertOrdered(prev: seq<ViableSubstitution>, index: nat, x: ViableSubstitution)
    requires Ordered(prev) && index <= |prev|
    requires forall k :: index <= k < |prev| ==> prev[k].OccursBefore(x)
    requires index > 0 ==> !prev[index - 1].OccursBefore(x)
    ensures Ordered(prev[..index] + [x] + prev[index..])
  {
    var subs := prev[..index] + [x] + prev[index..];
    forall i, j | 0 <= i < j < |subs|
      ensures !subs[i].OccursBefore(subs[j])
    {
      if j == index {
        assert i == index - 1 || !prev[i].OccursBefore(prev[index - 1]);
      }
    }
  }

  // What the list is after some of the replacements.
  ghost predicate Sorted(subs: seq<ViableSubstitution>, original: seq<ViableSubstitution>)
  {
    Ordered(subs) && StablyReorders(subs, original) && multiset(subs) == multiset(original)
  }

  // ----- The code -----

  method FindSubstitutions(s: string, replacements: seq<Replacement>) returns (subs: seq<ViableSubstitution>)
    ensures Ordered(subs)
    ensures StablyReorders(subs, Viable(s, replacements))
    ensures multiset(subs) == multiset(Viable(s, replacements))
  {
    subs := [];
    for r := 0 to |replacements|
      invariant Sorted(subs, Viable(s, replacements[..r]))
    {
      ViableStep(s, replacements, r);
      var rep := replacements[r];
      var pos := Find(s, rep.0, 0);
      if pos == None {
        continue;
      }
      if rep.0 == "" {
        continue;
      }
      var x := ViableSubstitution(rep.0, rep.1, pos.value);
      subs := SinkLast(subs, x, Viable(s, replacements[..r]));
    }
    assert replacements[..|replacements|] == replacements;
  }

  lemma ViableStep(s: string, reps: seq<Replacement>, r: nat)
    requires r < |reps|
    ensures Viable(s, reps[..r + 1])
         == if IsViable(s, reps[r]) then Viable(s, reps[..r]) + [Candidate(s, reps[r])] else Viable(s, reps[..r])
  {
    assert reps[..r + 1][..r] == reps[..r];
  }

  // emplace_back, then swaps with the neighbour in front until the order is right.
  method SinkLast(prev: seq<ViableSubstitution>, x: ViableSubstitution, ghost original: seq<ViableSubstitution>)
    returns (subs: seq<ViableSubstitution>)
    requires Sorted(prev, original)
    ensures Sorted(subs, original + [x])
  {
    subs := prev + [x];
    var index := |subs| - 1;
    while index != 0 && subs[index - 1].OccursBefore(subs[index])
      invariant 0 <= index <= |prev|
      invariant subs == prev[..index] + [x] + prev[index..]
      invariant forall k :: index <= k < |prev| ==> prev[k].OccursBefore(x)
    {
      subs := subs[index := subs[index - 1]][index - 1 := subs[index]];
      index := index - 1;
    }
    InsertOrdered(prev, index, x);
    InsertStable(prev, index, x, original);
  }

  lemma InsertStable(prev: seq<ViableSubstitution>, index: nat, x: ViableSubstitution, original: seq<ViableSubstitution>)
    requires index <= |prev|
    requires forall k :: index <= k < |prev| ==> prev[k].OccursBefore(x)
    requires StablyReorders(prev, original) && multiset(prev) == multiset(original)
    ensures StablyReorders(prev[..index] + [x] + prev[index..], original + [x])
    ensures multiset(prev[..index] + [x] + prev[index..]) == multiset(original + [x])
  {
    forall y: ViableSubstitution
      ensures Tied(prev[..index] + [x] + prev[index..], y) == Tied(original + [x], y)
    {
      InsertTied(prev, index, x, y);
      TiedAppend(prev, [x], y);
      TiedAppend(original, [x], y);
    }
    assert prev == prev[..index] + prev[index..];
  }

  // ----- What the list is worth to its user -----

  // Exactly the non-empty keys that occur, each at its first offset.
  lemma {:induction false} ViableExactly(s: string, reps: seq<Replacement>, x: ViableSubstitution)
    ensures x in Viable(s, reps) <==>
            && (x.key, x.replacement) in reps
            && x.key != ""
            && OccursAt(s, x.key, x.offset)
            && forall k: nat :: k < x.offset ==> !OccursAt(s, x.key, k)
  {
    if reps != [] {
      var n := |reps| - 1;
      ViableExactly(s, reps[..n], x);
      assert reps == reps[..n] + [reps[n]];
      if && (x.key, x.replacement) == reps[n]
         && OccursAt(s, x.key, x.offset)
         && (forall k: nat :: k < x.offset ==> !OccursAt(s, x.key, k)) {
        assert Find(s, x.key, 0) == Some(x.offset);
      }
    }
  }

  // The last entry has the least offset and, there, the greatest length.
  lemma LastIsBest(subs: seq<ViableSubstitution>, i: nat)
    requires Ordered(subs) && i < |subs|
    ensures var best := subs[|subs| - 1];
            best.offset <= subs[i].offset && (best.offset == subs[i].offset ==> |best.key| >= |subs[i].key|)
  {
    assert i == |subs| - 1 || !subs[i].OccursBefore(subs[|subs| - 1]);
  }

  lemma TiedWithoutLast(a: seq<ViableSubstitution>, b: seq<ViableSubstitution>, z: ViableSubstitution)
    requires a != [] && b != [] && a[|a| - 1].Ties(b[|b| - 1])
    requires Tied(a, z) == Tied(b, z)
    ensures Tied(a[..|a| - 1], z) == Tied(b[..|b| - 1], z)
  {
    TiedLast(a, z);
    TiedLast(b, z);
    if a[|a| - 1].Ties(z) {
      SameFront(Tied(a[..|a| - 1], z), Tied(b[..|b| - 1], z), a[|a| - 1], b[|b| - 1]);
    }
  }

  lemma TiedLast(a: seq<ViableSubstitution>, z: ViableSubstitution)
    requires a != []
    ensures a[|a| - 1].Ties(z) ==> Tied(a, z) == Tied(a[..|a| - 1], z) + [a[|a| - 1]]
    ensures !a[|a| - 1].Ties(z) ==> Tied(a, z) == Tied(a[..|a| - 1], z)
  {
  }

  lemma SameFront<T>(a: seq<T>, b: seq<T>, x: T, y: T)
    requires a + [x] == b + [y]
    ensures a == b
  {
    assert a == (a + [x])[..|a|];
    assert b == (b + [y])[..|b|];
  }

  // The promise to the caller of StrReplaceAll about the first replacement made: no key occurs
  // at an earlier position, and none that occurs at the same position is longer.
  lemma FirstMatchWins(s: string, reps: seq<Replacement>, subs: seq<ViableSubstitution>, rep: Replacement, pos: nat)
    requires Ordered(subs) && multiset(subs) == multiset(Viable(s, reps))
    requires rep in reps && rep.0 != "" && OccursAt(s, rep.0, pos)
    ensures subs != []
    ensures var best := subs[|subs| - 1];
            && OccursAt(s, best.key, best.offset) && (best.key, best.replacement) in reps
            && best.offset <= pos
            && (pos == best.offset ==> |rep.0| <= |best.key|)
  {
    var x := Candidate(s, rep);
    ViableExactly(s, reps, x);
    assert x in multiset(subs);
    var i :| 0 <= i < |subs| && subs[i] == x;
    LastIsBest(subs, i);
    var best := subs[|subs| - 1];
    assert best in multiset(subs);
    ViableExactly(s, reps, best);
  }

  // Among replacements given for one key the last one comes out on top: the best candidate was
  // given, and no later replacement has its key.
  lemma LastDuplicateWins(s: string, reps: seq<Replacement>, subs: seq<ViableSubstitution>) returns (r: nat)
    requires subs != [] && StablyReorders(subs, Viable(s, reps))
    ensures var best := subs[|subs| - 1];
            && r < |reps| && reps[r] == (best.key, best.replacement)
            && forall q :: r < q < |reps| ==> reps[q].0 != best.key
  {
    var best := subs[|subs| - 1];
    TiedLast(subs, best);
    r := LastGiven(s, reps, best);
  }

  lemma {:induction false} LastGiven(s: string, reps: seq<Replacement>, x: ViableSubstitution) returns (r: nat)
    requires var ties := Tied(Viable(s, reps), x); ties != [] && ties[|ties| - 1] == x
    ensures r < |reps| && reps[r] == (x.key, x.replacement)
    ensures IsViable(s, reps[r]) && x == Candidate(s, reps[r])
    ensures forall q :: r < q < |reps| ==> reps[q].0 != x.key
  {
    var n := |reps| - 1;
    if IsViable(s, reps[n]) {
      TiedAppend(Viable(s, reps[..n]), [Candidate(s, reps[n])], x);
      assert [Candidate(s, reps[n])][..0] == [];
    } else {
      assert Viable(s, reps) == Viable(s, reps[..n]);
    }
    if IsViable(s, reps[n]) && Candidate(s, reps[n]).Ties(x) {
      r := n;
    } else {
      r := LastGiven(s, reps[..n], x);
    }
  }

  // The last entries tie, and so they are the last ones of the same ties.
  lemma SameLast(a: seq<ViableSubstitution>, b: seq<ViableSubstitution>)
    requires a != [] && Ordered(a) && Ordered(b) && StablyReorders(a, b)
    ensures b != [] && a[|a| - 1] == b[|b| - 1]
  {
    var x := a[|a| - 1];
    TiedLast(a, x);
    TiedNone(b, x);
    var y := b[|b| - 1];
    TiedLast(b, y);
    TiedNone(a, y);
    LastTies(a, y);
    LastTies(b, x);
    assert y.Ties(x);
    TiedLast(b, x);
    var ties := Tied(a, x);
    assert ties[|ties| - 1] == x;
    assert ties[|ties| - 1] == y;
  }

  // Nothing in an ordered list with an entry that ties with y takes priority over its last entry.
  lemma LastTies(a: seq<ViableSubstitution>, y: ViableSubstitution)
    requires a != [] && Ordered(a) && exists j :: 0 <= j < |a| && a[j].Ties(y)
    ensures !y.OccursBefore(a[|a| - 1])
  {
    var j :| 0 <= j < |a| && a[j].Ties(y);
    assert j == |a| - 1 || !a[j].OccursBefore(a[|a| - 1]);
  }

  // Order and stability leave one possible list.
  lemma {:induction false} OrderedStableUnique(a: seq<ViableSubstitution>, b: seq<ViableSubstitution>)
    requires Ordered(a) && Ordered(b) && StablyReorders(a, b)
    ensures a == b
  {
    if a != [] {
      var m, n := |a| - 1, |b| - 1;
      SameLast(a, b);
      forall z: ViableSubstitution
        ensures Tied(a[..m], z) == Tied(b[..n], z)
      {
        TiedWithoutLast(a, b, z);
      }
      OrderedStableUnique(a[..m], b[..n]);
      assert a == a[..m] + [a[m]] && b == b[..n] + [b[n]];
    } else if b != [] {
      SameLast(b, a);
    }
  }
}
