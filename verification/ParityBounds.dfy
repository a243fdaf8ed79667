// Boundary parity: membership toggles at each range's first address and just past its last, so an
// address is a member exactly when an odd number of boundaries lie at or below it.
module ParityBounds {
  import opened Slots
  import opened ParityRanges

  // Past the last address nothing can toggle back, so such a range contributes one boundary only.
  function Edges(space: nat, r: Range): seq<nat> {
    if r.last + 1 < space then [r.first, r.last + 1] else [r.first]
  }

  function BoundsOf(space: nat, rs: seq<Range>): seq<nat> {
    if |rs| == 0 then [] else BoundsOf(space, rs[..|rs| - 1]) + Edges(space, rs[|rs| - 1])
  }

  // c boundaries lie at or below a.
  ghost predicate Splits(bounds: seq<nat>, a: nat, c: nat) {
    c <= |bounds| && (forall i :: 0 <= i < c ==> bounds[i] <= a) && (forall i :: c <= i < |bounds| ==> bounds[i] > a)
  }

  // Range i opens at boundary 2i and closes at 2i + 1; only the last one may stay open.
  ghost predicate Laid(space: nat, rs: seq<Range>, bounds: seq<nat>) {
    && (forall i :: 0 <= i < |rs| ==> 2 * i < |bounds| && bounds[2 * i] == rs[i].first)
    && (forall i :: 0 <= i < |rs| && rs[i].last + 1 < space ==> 2 * i + 1 < |bounds| && bounds[2 * i + 1] == rs[i].last + 1)
    && |bounds| == 2 * |rs| - (if |rs| > 0 && rs[|rs| - 1].last + 1 == space then 1 else 0)
  }

  lemma {:induction false} BoundsLaid(space: nat, rs: seq<Range>)
    requires Canonical(space, rs)
    ensures Laid(space, rs, BoundsOf(space, rs))
  {
    if |rs| > 0 {
      var front := rs[..|rs| - 1];
      BoundsLaid(space, front);
      assert |front| > 0 ==> front[|front| - 1].last + 1 < space;
    }
  }

  // Distinct, ascending and inside the space.
  lemma BoundsRise(space: nat, rs: seq<Range>)
    requires Canonical(space, rs)
    ensures Rising(BoundsOf(space, rs)) && forall i :: 0 <= i < |BoundsOf(space, rs)| ==> BoundsOf(space, rs)[i] < space
  {
    BoundsLaid(space, rs);
    var bounds := BoundsOf(space, rs);
    forall i | 0 <= i < |bounds| ensures bounds[i] < space && (i + 1 < |bounds| ==> bounds[i] < bounds[i + 1]) {
      Neighbours(space, rs, bounds, i / 2, i);
    }
    StepsRise(bounds);
  }

  lemma Neighbours(space: nat, rs: seq<Range>, bounds: seq<nat>, k: nat, i: nat)
    requires Canonical(space, rs) && Laid(space, rs, bounds) && i < |bounds| && (i == 2 * k || i == 2 * k + 1)
    ensures k < |rs| && bounds[i] < space && (i + 1 < |bounds| ==> bounds[i] < bounds[i + 1])
    ensures i == 2 * k ==> bounds[i] == rs[k].first
    ensures i == 2 * k + 1 ==> bounds[i] == rs[k].last + 1
  {
    assert bounds[2 * k] == rs[k].first;
    if i == 2 * k + 1 {
      assert rs[k].last + 1 < space && bounds[2 * k + 1] == rs[k].last + 1;
      if i + 1 < |bounds| {
        assert bounds[2 * (k + 1)] == rs[k + 1].first;
      }
    }
  }

  lemma {:induction false} StepsRise(bounds: seq<nat>)
    requires forall i :: 0 <= i < |bounds| - 1 ==> bounds[i] < bounds[i + 1]
    ensures Rising(bounds)
  {
    if |bounds| > 1 {
      StepsRise(bounds[..|bounds| - 1]);
      forall i, j | 0 <= i < j < |bounds| ensures bounds[i] < bounds[j] {
        assert bounds[|bounds| - 2] < bounds[|bounds| - 1];
      }
    }
  }

  // Parity is membership.
  lemma ParityIsUnion(space: nat, rs: seq<Range>, a: nat, c: nat)
    requires Canonical(space, rs) && a < space && Splits(BoundsOf(space, rs), a, c)
    ensures c % 2 == 1 <==> Union(rs, a)
  {
    BoundsLaid(space, rs);
    hide BoundsOf, Canonical;
    var bounds, k := BoundsOf(space, rs), c / 2;
    if c % 2 == 1 {
      OpenAt(space, rs, bounds, a, k);
      assert In(rs[k], a);
    } else {
      forall i | 0 <= i < |rs| ensures !In(rs[i], a) {
        ClosedAt(space, rs, bounds, a, k, i);
      }
    }
  }

  // Between a range's two boundaries.
  lemma OpenAt(space: nat, rs: seq<Range>, bounds: seq<nat>, a: nat, k: nat)
    requires Canonical(space, rs) && Laid(space, rs, bounds) && a < space && Splits(bounds, a, 2 * k + 1)
    ensures k < |rs| && In(rs[k], a)
  {
    Neighbours(space, rs, bounds, k, 2 * k);
    if 2 * k + 1 < |bounds| {
      Neighbours(space, rs, bounds, k, 2 * k + 1);
    }
  }

  // Between two ranges.
  lemma ClosedAt(space: nat, rs: seq<Range>, bounds: seq<nat>, a: nat, k: nat, i: nat)
    requires Canonical(space, rs) && Laid(space, rs, bounds) && a < space && Splits(bounds, a, 2 * k) && i < |rs|
    ensures !In(rs[i], a)
  {
    Neighbours(space, rs, bounds, i, 2 * i);
    if i < k {
      Neighbours(space, rs, bounds, i, 2 * i + 1);
    }
  }

  // An address is a boundary exactly when membership changes there.
  lemma BoundsAreToggles(space: nat, rs: seq<Range>, a: nat)
    requires Canonical(space, rs) && 0 < a < space
    ensures a in BoundsOf(space, rs) <==> (Union(rs, a) <==> !Union(rs, a - 1))
  {
    var bounds := BoundsOf(space, rs);
    BoundsRise(space, rs);
    var c := CountOf(bounds, a);
    var d := CountOf(bounds, a - 1);
    ParityIsUnion(space, rs, a, c);
    ParityIsUnion(space, rs, a - 1, d);
    hide Union, BoundsOf, Canonical;
    StepCount(bounds, a, c, d);
  }

  // One address on, the count grows by one exactly at a boundary.
  lemma StepCount(bounds: seq<nat>, a: nat, c: nat, d: nat)
    requires Rising(bounds) && a > 0 && Splits(bounds, a, c) && Splits(bounds, a - 1, d)
    ensures c == if a in bounds then d + 1 else d
  {
    if a in bounds {
      var i :| 0 <= i < |bounds| && bounds[i] == a;
      SplitsUnique(bounds, a, c, i + 1);
      SplitsUnique(bounds, a - 1, d, i);
    } else {
      SplitsUnique(bounds, a - 1, c, d);
    }
  }

  lemma SplitsUnique(bounds: seq<nat>, a: nat, c: nat, d: nat)
    requires Splits(bounds, a, c) && Splits(bounds, a, d)
    ensures c == d
  {
    SplitsOrder(bounds, a, c, d);
    SplitsOrder(bounds, a, d, c);
  }

  lemma SplitsOrder(bounds: seq<nat>, a: nat, c: nat, d: nat)
    requires Splits(bounds, a, c) && Splits(bounds, a, d)
    ensures d <= c
  {
    assert c < |bounds| ==> bounds[c] > a;
  }

  lemma {:induction false} CountOf(bounds: seq<nat>, a: nat) returns (c: nat)
    requires Rising(bounds)
    ensures Splits(bounds, a, c)
  {
    if |bounds| == 0 || bounds[|bounds| - 1] <= a {
      c := |bounds|;
    } else {
      c := CountOf(bounds[..|bounds| - 1], a);
    }
  }

  // ---------------------------------------------------------------- canonical form

  // The whole-space flag and the boundaries a list of maximal ranges compiles to.
  function Form(space: nat, rs: seq<Range>): (bool, seq<nat>) {
    if |rs| == 1 && rs[0].first == 0 && rs[0].last + 1 == space then (true, []) else (false, BoundsOf(space, rs))
  }

  // Two tables of prefixes compile to the same flag and boundaries exactly when their unions agree.
  lemma FormIsCanonical(space: nat, rs: seq<Range>, ss: seq<Range>)
    requires space > 0 && Canonical(space, rs) && Canonical(space, ss)
    ensures Form(space, rs) == Form(space, ss) <==> SameUnion(rs, ss)
  {
    CanonicalUnique(space, rs, ss);
    if Form(space, rs) == Form(space, ss) {
      FormDetermines(space, rs, ss);
    }
  }

  lemma FormDetermines(space: nat, rs: seq<Range>, ss: seq<Range>)
    requires space > 0 && Canonical(space, rs) && Canonical(space, ss) && Form(space, rs) == Form(space, ss)
    ensures rs == ss
  {
    BoundsLaid(space, rs);
    BoundsLaid(space, ss);
    FullBounds(space, rs);
    FullBounds(space, ss);
    hide BoundsOf;
    if !Form(space, rs).0 {
      LaidDetermines(space, rs, ss, BoundsOf(space, rs));
    }
  }

  lemma FullBounds(space: nat, rs: seq<Range>)
    requires space > 0
    ensures Form(space, rs).0 ==> rs == [Range(0, space - 1)]
    ensures !Form(space, rs).0 ==> Form(space, rs).1 == BoundsOf(space, rs)
  {
  }

  lemma LaidDetermines(space: nat, rs: seq<Range>, ss: seq<Range>, bounds: seq<nat>)
    requires Canonical(space, rs) && Canonical(space, ss) && Laid(space, rs, bounds) && Laid(space, ss, bounds)
    ensures rs == ss
  {
    assert |rs| == |ss|;
    forall i | 0 <= i < |rs| ensures rs[i] == ss[i] {
      assert bounds[2 * i] == rs[i].first;
      assert bounds[2 * i] == ss[i].first;
      SameLast(space, rs, ss, bounds, i);
    }
  }

  lemma SameLast(space: nat, rs: seq<Range>, ss: seq<Range>, bounds: seq<nat>, i: nat)
    requires Canonical(space, rs) && Canonical(space, ss) && Laid(space, rs, bounds) && Laid(space, ss, bounds)
    requires |rs| == |ss| && i < |rs|
    ensures rs[i].last == ss[i].last
  {
    if 2 * i + 1 < |bounds| {
      Neighbours(space, rs, bounds, i, 2 * i + 1);
      Neighbours(space, ss, bounds, i, 2 * i + 1);
    }
  }
}
