// slotlpm's Builder end to end: prefixes in, steps and cuts out.  The last part is a table for which
// one lookup does not return the longest match.
module SlotBuilder {
  import opened Bits
  import opened Prefixes
  import opened Slots
  import opened SlotSweep
  import opened SlotCut
  import opened SlotIndex
  import opened SlotLookup

  // One more prefix with a fresh id.
  lemma RangesStep(w: nat, m: map<Prefix, nat>, routes: seq<Route>, p: Prefix, id: nat)
    requires Ranges(w, m, routes) && Valid(w, p) && p !in m && id > 0 && id !in m.Values
    ensures Ranges(w, m[p := id], routes + [RouteOf(w, p, id)])
  {
    assert p.len <= w;
    hide Valid;
    var m', r := m[p := id], RouteOf(w, p, id);
    var routes' := routes + [r];
    assert routes'[|routes|] == r;
    forall q <- m' ensures m'[q] > 0 && RouteOf(w, q, m'[q]) in routes' {
      if q != p {
        assert RouteOf(w, q, m[q]) in routes;
      }
    }
    forall s <- routes' ensures IsRange(w, m', s) {
      if s in routes {
        var q :| q in m && q.len <= w && RouteOf(w, q, m[q]) == s;
        assert q in m' && m'[q] == m[q];
      } else {
        assert p in m' && RouteOf(w, p, m'[p]) == s;
      }
    }
    forall s <- routes ensures s.id != id {
      var q :| q in m && q.len <= w && RouteOf(w, q, m[q]) == s;
    }
  }

  datatype Index = Index(cuts4: Cuts, steps4: seq<Step>, cuts6: Cuts, split6: Split)

  lemma CompiledSteps(w: nat, floor: nat, x: Cuts, steps: seq<Step>, m: map<Prefix, nat>)
    requires w >= 24 && Compiled(w, floor, x, steps, m)
    ensures StepArray(w, steps)
  {
  }

  // One family's routes: the ranges of its table, numbered up to nextID.
  ghost predicate Numbered(w: nat, m: map<Prefix, nat>, routes: seq<Route>, nextID: nat) {
    Ranges(w, m, routes) && |routes| == |m| && forall p <- m :: m[p] <= nextID
  }

  lemma NumberedStep(w: nat, m: map<Prefix, nat>, routes: seq<Route>, nextID: nat, p: Prefix)
    requires Numbered(w, m, routes, nextID) && Valid(w, p) && p.len <= w && p !in m
    ensures Numbered(w, m[p := nextID + 1], routes + [RouteOf(w, p, nextID + 1)], nextID + 1)
  {
    hide Ranges, Valid;
    RangesStep(w, m, routes, p, nextID + 1);
    assert m[p := nextID + 1].Keys == m.Keys + {p};
  }

  lemma NumberedMore(w: nat, m: map<Prefix, nat>, routes: seq<Route>, nextID: nat)
    requires Numbered(w, m, routes, nextID)
    ensures Numbered(w, m, routes, nextID + 1)
  {
  }

  class Builder {
    var v4: seq<Route>
    var v6: seq<Route>
    var nextID: nat
    ghost var catalog4: map<Prefix, nat>
    ghost var catalog6: map<Prefix, nat>

    ghost predicate Valid()
      reads this
    {
      nextID < DENSE_TAG && Numbered(32, catalog4, v4, nextID) && Numbered(128, catalog6, v6, nextID)
    }

    constructor ()
      ensures Valid() && catalog4 == map[] && catalog6 == map[] && nextID == 0
    {
      v4, v6, nextID := [], [], 0;
      catalog4, catalog6 := map[], map[];
    }

    // Records an already masked prefix that the caller has not added before.
    method AddKey4(p: Prefix) returns (id: nat)
      requires Valid() && Prefixes.Valid(32, p) && p !in catalog4 && nextID + 1 < DENSE_TAG
      modifies this
      ensures Valid() && id == nextID == old(nextID) + 1
      ensures catalog4 == old(catalog4)[p := id] && catalog6 == old(catalog6)
    {
      hide Numbered, Prefixes.Valid;
      LengthFits(32, p);
      id := nextID + 1;
      NumberedStep(32, catalog4, v4, nextID, p);
      NumberedMore(128, catalog6, v6, nextID);
      nextID := id;
      v4 := v4 + [RouteOf(32, p, id)];
      catalog4 := catalog4[p := id];
    }

    method AddKey6(p: Prefix) returns (id: nat)
      requires Valid() && Prefixes.Valid(128, p) && p !in catalog6 && nextID + 1 < DENSE_TAG
      modifies this
      ensures Valid() && id == nextID == old(nextID) + 1
      ensures catalog6 == old(catalog6)[p := id] && catalog4 == old(catalog4)
    {
      hide Numbered, Prefixes.Valid;
      LengthFits(128, p);
      id := nextID + 1;
      NumberedStep(128, catalog6, v6, nextID, p);
      NumberedMore(32, catalog4, v4, nextID);
      nextID := id;
      v6 := v6 + [RouteOf(128, p, id)];
      catalog6 := catalog6[p := id];
    }

    method Build() returns (x: Index, ghost steps6: seq<Step>)
      requires Valid()
      ensures Compiled(32, 0, x.cuts4, x.steps4, catalog4)
      ensures Compiled(128, 64, x.cuts6, steps6, catalog6) && SplitOf(x.split6, steps6)
      ensures |x.steps4| <= 2 * |catalog4| + 1 && |steps6| <= 2 * |catalog6| + 1
    {
      hide Numbered, Compiled, SplitOf;
      var cuts4, steps4 := BuildFamily(32, 0, v4, catalog4, nextID);
      var cuts6, swept := BuildFamily(128, 64, v6, catalog6, nextID);
      CompiledSteps(128, 64, cuts6, swept, catalog6);
      var split := SplitSteps(swept);
      x, steps6 := Index(cuts4, steps4, cuts6, split), swept;
    }
  }

  method BuildFamily(w: nat, floor: nat, routes: seq<Route>, ghost m: map<Prefix, nat>, ghost nextID: nat)
    returns (x: Cuts, steps: seq<Step>)
    requires w >= 24 && floor + 24 <= w && (w - 16 - floor) % 8 == 0
    requires Numbered(w, m, routes, nextID) && nextID < DENSE_TAG
    ensures Compiled(w, floor, x, steps, m) && |steps| <= 2 * |m| + 1
  {
    steps := Sweep(w, routes, m);
    assert StepArray(w, steps) by { SweptArray(w, routes, m, nextID, steps); }
    assert steps == [] <==> m == map[] by { NoRoutes(w, m, routes); }
    hide CutsOk;
    x := Compile(w, floor, steps);
  }

  lemma NoRoutes(w: nat, m: map<Prefix, nat>, routes: seq<Route>)
    requires Ranges(w, m, routes)
    ensures routes == [] <==> m == map[]
  {
    assert forall r :: r in routes ==> IsRange(w, m, r);
    assert routes != [] ==> routes[0] in routes;
    if m != map[] {
      var p :| p in m;
      assert RouteOf(w, p, m[p]) in routes;
    }
  }

  lemma SweptArray(w: nat, routes: seq<Route>, m: map<Prefix, nat>, nextID: nat, steps: seq<Step>)
    requires Ascending(steps) && |steps| <= 2 * |routes| + 1 && nextID < DENSE_TAG && forall p <- m :: m[p] <= nextID
    requires |routes| > 0 ==> |steps| > 0 && steps[0].bound == 0
    requires |routes| == 0 ==> steps == []
    requires forall t :: 0 <= t < |steps| ==> steps[t].bound < Pow2(w) && (steps[t].id == 0 || steps[t].id in m.Values)
    ensures StepArray(w, steps)
  {
    forall i | 0 <= i < |steps| ensures steps[i].id < DENSE_TAG {
      if steps[i].id in m.Values {
        var p :| p in m && m[p] == steps[i].id;
      }
    }
  }

  // ---------------------------------------------------------------- a misleading second cut

  // 10.1.0.0
  const BASE := 0x0a01_0000

  // 10.2.5.7, outside every prefix of the table below.
  const STRAY := 0x0a02_0507

  // 10.1.k.0/24 for k below 13, numbered from 1.
  function ClusterPrefix(k: nat): Prefix {
    Prefix(BASE + 256 * k, 24)
  }

  function ClusterId(p: Prefix): nat {
    if p.key < BASE then 0 else (p.key - BASE) / 256 + 1
  }

  ghost function ClusterTable(): map<Prefix, nat> {
    map p | p in (set k: nat | k < 13 :: ClusterPrefix(k)) :: ClusterId(p)
  }

  function ClusterStep(i: nat): Step {
    if i == 0 then Step(0, 0) else Step(BASE + 256 * (i - 1), if i < 14 then i else 0)
  }

  // The table's step function.
  function Cluster(): (steps: seq<Step>)
    ensures |steps| == 15 && forall i :: 0 <= i < 15 ==> steps[i] == ClusterStep(i)
  {
    seq(15, i requires 0 <= i < 15 => ClusterStep(i))
  }

  lemma ClusterArray()
    ensures StepArray(32, Cluster()) && Collapsed(Cluster()) && Rising(Bounds(Cluster()))
  {
    Pow2Small();
    Pow2Large();
    hide Pow2;
  }

  lemma ClusterCovers(p: Prefix, k: nat, a: nat)
    requires k < 13 && p == ClusterPrefix(k)
    ensures Valid(32, p) && (Covers(32, p, a) <==> BASE + 256 * k <= a < BASE + 256 * k + 256)
  {
    Pow2Small();
    Pow2Large();
    hide Pow2;
    CoversIsRange(32, p, a);
  }

  // The step an address falls in.
  function ClusterIndex(a: nat): (i: nat)
    ensures i < 15
  {
    if a < BASE then 0 else if a >= BASE + 256 * 13 then 14 else (a - BASE) / 256 + 1
  }

  // The steps are right for the table.
  lemma ClusterAnswers(a: nat)
    ensures Answers(32, ClusterTable(), a, StepAt(Cluster(), a))
    ensures StepAt(Cluster(), a) == ClusterStep(ClusterIndex(a)).id
  {
    var m, i := ClusterTable(), ClusterIndex(a);
    SeekIsStepAt(Cluster(), i + 1, i + 1, a);
    forall p <- m ensures Covers(32, p, a) <==> 1 <= i < 14 && p == ClusterPrefix(i - 1) {
      var k: nat :| k < 13 && p == ClusterPrefix(k);
      ClusterCovers(p, k, a);
    }
    hide Covers;
    if 1 <= i < 14 {
      assert ClusterPrefix(i - 1) in m.Keys && Longest(32, m.Keys, a, ClusterPrefix(i - 1));
    }
  }

  lemma ClusterShr(i: nat)
    requires 1 <= i < 15
    ensures Shr(ClusterStep(i).bound, 24) == 10 && Shr(ClusterStep(i).bound, 16) == 2561
    ensures Shr(ClusterStep(i).bound, 8) == 655616 + (i - 1)
    ensures OctetFrom(ClusterStep(i).bound, 16) == 1 && OctetFrom(ClusterStep(i).bound, 8) == i - 1
    ensures Shr(0, 24) == 0 && Shr(0, 16) == 0
    ensures Shr(STRAY, 24) == 10 && OctetFrom(STRAY, 8) == 5
  {
    Pow2Small();
    Pow2Large();
    hide Pow2;
  }

  // All the cluster's steps lie in the /8 slot of 10, and in one of two 16-bit slots.
  lemma ClusterSlots(x: Cuts)
    requires CutsOk(32, 0, x, Cluster())
    ensures x.shift == 24 && |x.slots| > 11 && x.slots[10].off == 1 && x.slots[11].off == 15
    ensures SlotOk(x.dense, x.sub, Cluster(), 24, 0, 10, 1, 15, x.slots[10].id)
  {
    ClusterRuns(15);
    assert Bounds(Cluster())[..15] == Bounds(Cluster());
    Pow2Small();
    Pow2Large();
    hide Pow2, Shr, Runs;
    var s := SlotOk(x.dense, x.sub, Cluster(), 24, 0, 10, x.slots[10].off, x.slots[11].off, x.slots[10].id);
    assert s;
    ClusterOff(10, x.slots[10].off);
    ClusterOff(11, x.slots[11].off);
  }

  lemma {:induction false} ClusterRuns(n: nat)
    requires n <= 15
    ensures Runs(Bounds(Cluster())[..n], 16) <= 2
    ensures n == 1 ==> Runs(Bounds(Cluster())[..n], 16) == 1
  {
    if n > 0 {
      ClusterRuns(n - 1);
      RunsStep(Bounds(Cluster()), 16, n - 1);
      if n > 2 {
        ClusterShr(n - 1);
        ClusterShr(n - 2);
      }
    }
  }

  lemma ClusterOff(s: nat, off: nat)
    requires s == 10 || s == 11
    requires IsOff(Bounds(Cluster()), 24, s, off)
    ensures off == if s == 10 then 1 else 15
  {
    var bs := Bounds(Cluster());
    forall i | 0 <= i < 15 ensures Shr(bs[i], 24) == if i == 0 then 0 else 10 {
      ClusterShr(if i == 0 then 1 else i);
    }
    hide Shr;
    assert Shr(bs[0], 24) == 0 && Shr(bs[1], 24) == 10 && Shr(bs[14], 24) == 10;
  }

  lemma {:induction false} SameLoad(bs: seq<nat>, shift: nat, b: nat)
    requires forall i :: 0 <= i < |bs| ==> OctetFrom(bs[i], shift) == b
    ensures Load(bs, shift, b) == |bs|
  {
    if |bs| > 0 {
      SameLoad(bs[..|bs| - 1], shift, b);
    }
  }

  lemma {:induction false} NoLoad(bs: seq<nat>, shift: nat, b: nat)
    requires forall i :: 0 <= i < |bs| ==> OctetFrom(bs[i], shift) != b
    ensures Load(bs, shift, b) == 0
  {
    if |bs| > 0 {
      NoLoad(bs[..|bs| - 1], shift, b);
    }
  }

  lemma {:induction false} SpreadLoad(bs: seq<nat>, shift: nat)
    requires forall i, j :: 0 <= i < j < |bs| ==> OctetFrom(bs[i], shift) != OctetFrom(bs[j], shift)
    ensures WorstLoad(bs, shift) <= 1
  {
    if |bs| > 0 {
      SpreadLoad(bs[..|bs| - 1], shift);
      NoLoad(bs[..|bs| - 1], shift, OctetFrom(bs[|bs| - 1], shift));
    }
  }

  // The cut goes to the third octet: it separates all the steps and the second is the same in all.
  lemma ClusterCut(cut: nat)
    requires CutAt(Bounds(Cluster())[1..15], 16, 0, cut)
    ensures cut == 8
  {
    var bs := Bounds(Cluster())[1..15];
    forall i | 0 <= i < 14 ensures OctetFrom(bs[i], 16) == 1 && OctetFrom(bs[i], 8) == i {
      ClusterShr(i + 1);
    }
    hide OctetFrom;
    SameLoad(bs, 16, 1);
    WorstBounds(bs, 16, 1);
    SpreadLoad(bs, 8);
    assert Eligible(bs, 16, 1);
    assert !Constant(bs, 8) by { assert OctetFrom(bs[1], 8) != OctetFrom(bs[0], 8); }
    NotConstant(bs, 16, 1);
    var k: nat :| 8 * k <= 16 && cut == Down(16, k) && Lightest(bs, 16, 0, k);
    assert NoLighter(bs, 16, k, 1);
  }

  lemma ClusterBucket(e: SubEntry, off: nat)
    requires BucketOk(Cluster(), 1, 15, 8, 5, e) && NextBucket(Cluster(), 1, 15, 8, 5, off)
    ensures e.off == 6 && off == 7
  {
    forall i | 1 <= i < 15 ensures OctetFrom(Cluster()[i].bound, 8) == i - 1 {
      ClusterShr(i);
    }
    hide OctetFrom, Cluster;
    assert OctetFrom(Cluster()[5].bound, 8) == 4 && OctetFrom(Cluster()[6].bound, 8) == 5;
    assert OctetFrom(Cluster()[7].bound, 8) == 6;
  }

  // Whatever the compiler builds for the table has the steps above.
  lemma ClusterSteps(x: Cuts, steps: seq<Step>)
    requires Compiled(32, 0, x, steps, ClusterTable())
    ensures steps == Cluster()
  {
    ClusterArray();
    assert ClusterPrefix(0) in ClusterTable();
    assert AllValid(32, ClusterTable().Keys);
    hide Answers, CutsOk, AllValid, StepAt, ClusterTable;
    forall a: nat | a < Pow2(32) ensures StepAt(steps, a) == StepAt(Cluster(), a) {
      ClusterAnswers(a);
      AnswerUnique(32, ClusterTable(), a, StepAt(steps, a), StepAt(Cluster(), a));
    }
    CollapsedUnique(32, steps, Cluster());
  }

  // 10.2.5.7 shares only its third octet with the cluster, yet the lookup answers 10.1.5.0/24.
  lemma SecondCutMisleads(x: Cuts, steps: seq<Step>)
    requires Compiled(32, 0, x, steps, ClusterTable())
    ensures STRAY < Pow2(32) && Find(32, 0, x, steps, STRAY) == 6
    ensures Answers(32, ClusterTable(), STRAY, 0) && !Answers(32, ClusterTable(), STRAY, 6)
  {
    ClusterSteps(x, steps);
    ClusterMisleads(x);
  }

  lemma ClusterMisleads(x: Cuts)
    requires CutsOk(32, 0, x, Cluster())
    ensures StepArray(32, Cluster()) && STRAY < Pow2(32)
    ensures Find(32, 0, x, Cluster(), STRAY) == 6
    ensures Answers(32, ClusterTable(), STRAY, 0) && !Answers(32, ClusterTable(), STRAY, 6)
  {
    ClusterArray();
    Pow2Small();
    Pow2Large();
    ClusterAnswers(STRAY);
    assert AllValid(32, ClusterTable().Keys) by { ClusterValid(); }
    ClusterSlots(x);
    ClusterShr(1);
    hide Pow2, Shr, OctetFrom, Answers, StepAt, CutsOk, StepArray, AllValid;
    if Answers(32, ClusterTable(), STRAY, 6) {
      AnswerUnique(32, ClusterTable(), STRAY, 6, 0);
    }
    var d := RecordOf(x, 10);
    ClusterCut(d.subShift);
    BucketRises(x, Cluster(), 1, 15, d, STRAY);
    ClusterBucket(Bucket(x, d, STRAY).0, Bucket(x, d, STRAY).1.off);
    assert Window(32, 0, x, Cluster(), STRAY) == Run(6, 7, BaseID(Cluster(), 6));
  }

  lemma ClusterValid()
    ensures AllValid(32, ClusterTable().Keys)
  {
    forall p <- ClusterTable() ensures Valid(32, p) {
      var k: nat :| k < 13 && p == ClusterPrefix(k);
      ClusterCovers(p, k, 0);
    }
  }
}
