// parityset's canonical reduction: prefix ranges merged into maximal disjoint ranges, and those into
// the sorted addresses at which membership toggles.
module ParityRanges {
  import opened Sorting

  datatype Range = Range(first: nat, last: nat)

  predicate In(r: Range, a: nat) {
    r.first <= a <= r.last
  }

  ghost predicate Union(rs: seq<Range>, a: nat) {
    exists i :: 0 <= i < |rs| && In(rs[i], a)
  }

  ghost predicate Fits(space: nat, rs: seq<Range>) {
    forall i :: 0 <= i < |rs| ==> rs[i].first <= rs[i].last < space
  }

  // Maximal disjoint ranges in order: between two of them at least one address is missing.
  ghost predicate Canonical(space: nat, rs: seq<Range>) {
    Fits(space, rs) && forall i, j :: 0 <= i < j < |rs| ==> rs[i].last + 1 < rs[j].first
  }

  function RangeKey(r: Range): Key {
    var last: int := r.last;
    (r.first, -last)
  }

  ghost predicate StartOrder(rs: seq<Range>) {
    forall i, j :: 0 <= i < j < |rs| ==> rs[i].first <= rs[j].first
  }

  // ---------------------------------------------------------------- merging in place

  // The union of the merged part and of what is still to be read is the union of the input.
  ghost predicate Merging(space: nat, rs: seq<Range>, a: seq<Range>, n: nat, i: nat) {
    && |a| == |rs| && 0 < n <= i <= |rs| && Canonical(space, a[..n])
    && (forall k :: i <= k < |rs| ==> a[k] == rs[k])
    && (i > 0 ==> a[n - 1].first <= rs[i - 1].first)
    && (forall x: nat :: Union(a[..n], x) <==> Union(rs[..i], x))
  }

  lemma UnionStep(rs: seq<Range>, i: nat, x: nat)
    requires i < |rs|
    ensures Union(rs[..i + 1], x) <==> Union(rs[..i], x) || In(rs[i], x)
  {
    if Union(rs[..i], x) {
      var k :| 0 <= k < i && In(rs[..i][k], x);
      assert In(rs[..i + 1][k], x);
    }
    if In(rs[i], x) {
      assert In(rs[..i + 1][i], x);
    }
  }

  lemma UnionLast(a: seq<Range>, x: nat)
    requires |a| > 0
    ensures Union(a, x) <==> Union(a[..|a| - 1], x) || In(a[|a| - 1], x)
  {
    UnionStep(a, |a| - 1, x);
    assert a[..|a|] == a;
  }

  predicate Touches(last: Range, current: Range, space: nat) {
    current.first <= last.last || (last.last != space - 1 && current.first == last.last + 1)
  }

  // A range that overlaps or touches the last merged one extends it.
  lemma Extended(space: nat, rs: seq<Range>, a: seq<Range>, n: nat, i: nat)
    requires Merging(space, rs, a, n, i) && i < |rs| && Fits(space, rs) && StartOrder(rs)
    requires Touches(a[n - 1], a[i], space)
    ensures var last := if a[i].last > a[n - 1].last then a[i].last else a[n - 1].last;
            Merging(space, rs, a[n - 1 := Range(a[n - 1].first, last)], n, i + 1)
  {
    var last := if a[i].last > a[n - 1].last then a[i].last else a[n - 1].last;
    var b := a[n - 1 := Range(a[n - 1].first, last)];
    assert b[..n][..n - 1] == a[..n][..n - 1];
    assert rs[i - 1].first <= rs[i].first && a[i] == rs[i];
    forall x: nat ensures Union(b[..n], x) <==> Union(rs[..i + 1], x) {
      UnionStep(rs, i, x);
      UnionLast(a[..n], x);
      UnionLast(b[..n], x);
    }
    hide Union;
  }

  // One past a gap starts a new merged range.
  lemma Appended(space: nat, rs: seq<Range>, a: seq<Range>, n: nat, i: nat)
    requires Merging(space, rs, a, n, i) && i < |rs| && Fits(space, rs) && StartOrder(rs)
    requires !Touches(a[n - 1], a[i], space)
    ensures Merging(space, rs, a[n := a[i]], n + 1, i + 1)
  {
    var b := a[n := a[i]];
    var merged, read := b[..n + 1], rs[..i + 1];
    assert merged == a[..n] + [rs[i]];
    forall x: nat ensures Union(merged, x) <==> Union(read, x) {
      UnionStep(rs, i, x);
      UnionLast(merged, x);
    }
    hide Union;
  }

  // Coalesces overlapping and adjacent ranges within the array; the first n cells are the result.
  method MergeInPlace(space: nat, a: array<Range>) returns (n: nat)
    requires Fits(space, a[..])
    modifies a
    ensures n <= a.Length && Canonical(space, a[..n])
    ensures forall x: nat :: Union(a[..n], x) <==> Union(old(a[..]), x)
  {
    if a.Length == 0 {
      return 0;
    }
    ghost var input := a[..];
    var sorted := Sort(a[..], RangeKey);
    SortedRanges(space, input, sorted);
    WriteBack(a, sorted);
    n := 1;
    FirstMerged(space, sorted);
    hide Merging, Union, Fits, Canonical, StartOrder;
    for i := 1 to a.Length
      invariant Merging(space, sorted, a[..], n, i) && 0 < n <= i
    {
      var current := a[i];
      ghost var before := a[..];
      if Touches(a[n - 1], current, space) {
        Extended(space, sorted, before, n, i);
        if current.last > a[n - 1].last {
          a[n - 1] := Range(a[n - 1].first, current.last);
        }
        assert a[..] == before[n - 1 := Range(before[n - 1].first, if current.last > before[n - 1].last then current.last else before[n - 1].last)];
      } else {
        Appended(space, sorted, before, n, i);
        a[n] := current;
        n := n + 1;
        assert a[..] == before[n - 1 := before[i]];
      }
    }
    Merged(space, input, sorted, a[..], n);
    assert a[..][..n] == a[..n];
  }

  method WriteBack(a: array<Range>, sorted: seq<Range>)
    requires |sorted| == a.Length
    modifies a
    ensures a[..] == sorted
  {
    for k := 0 to a.Length
      invariant a[..k] == sorted[..k]
    {
      a[k] := sorted[k];
    }
  }

  lemma SortedRanges(space: nat, input: seq<Range>, sorted: seq<Range>)
    requires Fits(space, input) && multiset(sorted) == multiset(input) && |sorted| == |input| && Sorted(sorted, RangeKey)
    ensures Fits(space, sorted) && StartOrder(sorted)
    ensures forall x: nat :: Union(sorted, x) <==> Union(input, x)
  {
    assert forall r :: r in sorted <==> r in multiset(sorted);
    assert forall r :: r in input <==> r in multiset(input);
    forall i | 0 <= i < |sorted| ensures sorted[i].first <= sorted[i].last < space {
      assert sorted[i] in input;
    }
    forall i, j | 0 <= i < j < |sorted| ensures sorted[i].first <= sorted[j].first {
      assert !KeyLess(RangeKey(sorted[j]), RangeKey(sorted[i]));
    }
    forall x: nat ensures Union(sorted, x) <==> Union(input, x) {
      UnionSame(sorted, input, x);
      UnionSame(input, sorted, x);
    }
  }

  lemma UnionSame(rs: seq<Range>, ss: seq<Range>, x: nat)
    requires forall r :: r in rs ==> r in ss
    ensures Union(rs, x) ==> Union(ss, x)
  {
    if i :| 0 <= i < |rs| && In(rs[i], x) {
      assert rs[i] in ss;
      var k :| 0 <= k < |ss| && ss[k] == rs[i];
      assert In(ss[k], x);
    }
  }

  lemma FirstMerged(space: nat, rs: seq<Range>)
    requires Fits(space, rs) && |rs| > 0
    ensures Merging(space, rs, rs, 1, 1)
  {
  }

  lemma Merged(space: nat, input: seq<Range>, rs: seq<Range>, a: seq<Range>, n: nat)
    requires Merging(space, rs, a, n, |rs|) && forall x: nat :: Union(rs, x) <==> Union(input, x)
    ensures n <= |a| && Canonical(space, a[..n]) && forall x: nat :: Union(a[..n], x) <==> Union(input, x)
  {
    assert rs[..|rs|] == rs;
  }

  // ---------------------------------------------------------------- the reduction is canonical

  ghost predicate SameUnion(rs: seq<Range>, ss: seq<Range>) {
    forall x: nat :: Union(rs, x) <==> Union(ss, x)
  }

  // An address just outside a maximal range on either side is in no range.
  lemma GapAround(space: nat, rs: seq<Range>, i: nat, x: nat)
    requires Canonical(space, rs) && i < |rs| && (x == rs[i].last + 1 || x + 1 == rs[i].first)
    ensures !Union(rs, x)
  {
    forall k | 0 <= k < |rs| ensures !In(rs[k], x) {
    }
  }

  // The maximal range around an address is determined by the union alone.
  lemma SameRange(space: nat, rs: seq<Range>, ss: seq<Range>, i: nat) returns (j: nat)
    requires Canonical(space, rs) && Canonical(space, ss) && SameUnion(rs, ss) && i < |rs|
    ensures j < |ss| && ss[j] == rs[i]
  {
    assert In(rs[i], rs[i].first) && Union(rs, rs[i].first);
    j :| 0 <= j < |ss| && In(ss[j], rs[i].first);
    hide Union;
    Inside(space, rs, ss, i, j, rs[i].first);
    Inside(space, ss, rs, j, i, rs[i].first);
  }

  // Two maximal ranges of one union with a common address: neither sticks out of the other.
  lemma Inside(space: nat, rs: seq<Range>, ss: seq<Range>, i: nat, j: nat, x: nat)
    requires Canonical(space, rs) && Canonical(space, ss) && SameUnion(rs, ss) && i < |rs| && j < |ss|
    requires In(rs[i], x) && In(ss[j], x)
    ensures ss[j].first <= rs[i].first && rs[i].last <= ss[j].last
  {
    if ss[j].first > 0 {
      GapAround(space, ss, j, ss[j].first - 1);
      InUnion(rs, i, ss[j].first - 1);
    }
    GapAround(space, ss, j, ss[j].last + 1);
    InUnion(rs, i, ss[j].last + 1);
  }

  lemma InUnion(rs: seq<Range>, i: nat, x: nat)
    requires i < |rs|
    ensures In(rs[i], x) ==> Union(rs, x)
  {
  }

  // Two lists of ranges have the same union exactly when they reduce to the same maximal ranges.
  lemma CanonicalUnique(space: nat, rs: seq<Range>, ss: seq<Range>)
    requires Canonical(space, rs) && Canonical(space, ss)
    ensures SameUnion(rs, ss) <==> rs == ss
  {
    if SameUnion(rs, ss) {
      SameLists(space, rs, ss, |rs|);
      SameLists(space, ss, rs, |ss|);
    }
  }

  lemma {:induction false} SameLists(space: nat, rs: seq<Range>, ss: seq<Range>, n: nat)
    requires Canonical(space, rs) && Canonical(space, ss) && SameUnion(rs, ss) && n <= |rs|
    ensures n <= |ss| && rs[..n] == ss[..n]
  {
    if n > 0 {
      SameLists(space, rs, ss, n - 1);
      var j := SameRange(space, rs, ss, n - 1);
      NotBefore(space, rs, ss, n - 1, j);
      var i := SameRange(space, ss, rs, n - 1);
      NotBefore(space, ss, rs, n - 1, i);
      assert j == n - 1;
    }
  }

  // Equal leading ranges leave the next one no earlier place.
  lemma NotBefore(space: nat, rs: seq<Range>, ss: seq<Range>, k: nat, j: nat)
    requires Canonical(space, rs) && Canonical(space, ss) && k < |rs| && k <= |ss| && rs[..k] == ss[..k]
    requires j < |ss| && ss[j] == rs[k]
    ensures j >= k
  {
    forall i | 0 <= i < k ensures rs[i] == ss[i] {
      assert rs[..k][i] == ss[..k][i];
    }
  }

  // No list of ranges with the same union is shorter.
  lemma FewestRanges(space: nat, rs: seq<Range>, ss: seq<Range>)
    requires Canonical(space, rs) && Fits(space, ss) && SameUnion(rs, ss)
    ensures |rs| <= |ss|
  {
    var pick := Picks(space, rs, ss, |rs|);
    Pigeonhole(pick, |ss|);
  }

  // Each maximal range needs a range of its own: one holding its first address stays inside it.
  lemma {:induction false} Picks(space: nat, rs: seq<Range>, ss: seq<Range>, n: nat) returns (pick: seq<nat>)
    requires Canonical(space, rs) && Fits(space, ss) && SameUnion(rs, ss) && n <= |rs|
    ensures |pick| == n && forall i :: 0 <= i < n ==> pick[i] < |ss| && In(ss[pick[i]], rs[i].first)
    ensures forall i, j :: 0 <= i < j < n ==> pick[i] != pick[j]
  {
    pick := [];
    if n > 0 {
      var front := Picks(space, rs, ss, n - 1);
      InUnion(rs, n - 1, rs[n - 1].first);
      assert In(rs[n - 1], rs[n - 1].first) && Union(ss, rs[n - 1].first);
      var k :| 0 <= k < |ss| && In(ss[k], rs[n - 1].first);
      forall i | 0 <= i < n - 1 ensures front[i] != k {
        GapAround(space, rs, i, rs[i].last + 1);
        InUnion(ss, k, rs[i].last + 1);
      }
      pick := front + [k];
    }
  }

  lemma {:induction false} Pigeonhole(pick: seq<nat>, m: nat)
    requires forall i :: 0 <= i < |pick| ==> pick[i] < m
    requires forall i, j :: 0 <= i < j < |pick| ==> pick[i] != pick[j]
    ensures |pick| <= m
  {
    var s := set i | 0 <= i < |pick| :: pick[i];
    SetOf(pick, |pick|);
    UpToHas(m);
    Subset(s, UpTo(m));
  }

  lemma {:induction false} SetOf(pick: seq<nat>, n: nat)
    requires n <= |pick| && forall i, j :: 0 <= i < j < |pick| ==> pick[i] != pick[j]
    ensures |set i | 0 <= i < n :: pick[i]| == n
  {
    if n > 0 {
      SetOf(pick, n - 1);
      assert (set i | 0 <= i < n :: pick[i]) == (set i | 0 <= i < n - 1 :: pick[i]) + {pick[n - 1]};
    }
  }

  ghost function UpTo(m: nat): set<nat> {
    if m == 0 then {} else UpTo(m - 1) + {m - 1}
  }

  lemma {:induction false} UpToHas(m: nat)
    ensures |UpTo(m)| == m && forall k: nat :: k in UpTo(m) <==> k < m
  {
    if m > 0 {
      UpToHas(m - 1);
    }
  }
}
