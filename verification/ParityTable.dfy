// parityset.Table: the stored prefixes in two sorted slices, and a compiled set that answers for their
// union even though a mutation that cannot change the union publishes nothing.
module ParityTable {
  import opened Bits
  import opened Options
  import opened Prefixes
  import opened Requests
  import opened Words
  import opened WordArrays
  import opened Slots
  import opened Sorting
  import opened PackedKeys
  import opened PackedLists
  import opened ParityRanges
  import opened ParityBounds
  import opened ParityIndex
  import opened ParityLookup

  // ---------------------------------------------------------------- stored prefixes

  ghost function Stored4(v: seq<nat>): set<Prefix> {
    set x | x in v :: Unpack4(x)
  }

  ghost function Stored6(v: seq<Entry6>): set<Prefix> {
    set e | e in v :: Prefix6(e)
  }

  lemma Stored4Has(v: seq<nat>, p: Prefix)
    requires p.len < 256
    ensures p in Stored4(v) <==> Pack4(p) in v
  {
    PackedOrder(p, p);
    if p in Stored4(v) {
      var x :| x in v && Unpack4(x) == p;
      assert x == Pack4(p);
    }
  }

  lemma Stored6Has(v: seq<Entry6>, p: Prefix)
    requires Kept6(v) && p.key < Pow2(128)
    ensures p in Stored6(v) <==> Enter6(p) in v
  {
    EntryOrder(p, p);
    if p in Stored6(v) {
      var e :| e in v && Prefix6(e) == p;
      EntryIs(e, p);
    }
  }

  lemma Grown4(v: seq<nat>, r: seq<nat>, p: Prefix)
    requires p.len < 256 && forall y :: y in r <==> y in v || y == Pack4(p)
    ensures Stored4(r) == Stored4(v) + {p}
  {
    PackedOrder(p, p);
    forall q ensures q in Stored4(r) <==> q in Stored4(v) + {p} {
      assert q in Stored4(v) ==> exists x :: x in v && x in r && Unpack4(x) == q;
    }
  }

  lemma Shrunk4(v: seq<nat>, r: seq<nat>, p: Prefix)
    requires p.len < 256 && forall y :: y in r <==> y in v && y != Pack4(p)
    ensures Stored4(r) == Stored4(v) - {p}
  {
    PackedOrder(p, p);
    forall q ensures q in Stored4(r) <==> q in Stored4(v) - {p} {
      if q in Stored4(v) && q != p {
        var x :| x in v && Unpack4(x) == q;
        assert x in r;
      }
    }
  }

  lemma Grown6(v: seq<Entry6>, r: seq<Entry6>, p: Prefix)
    requires p.key < Pow2(128) && forall y :: y in r <==> y in v || y == Enter6(p)
    ensures Stored6(r) == Stored6(v) + {p}
  {
    EntryOrder(p, p);
    hide Enter6, Prefix6;
    forall q ensures q in Stored6(r) <==> q in Stored6(v) + {p} {
      assert q in Stored6(v) ==> exists x :: x in v && x in r && Prefix6(x) == q;
    }
  }

  lemma Shrunk6(v: seq<Entry6>, r: seq<Entry6>, p: Prefix)
    requires Kept6(v) && p.key < Pow2(128) && forall y :: y in r <==> y in v && y != Enter6(p)
    ensures Stored6(r) == Stored6(v) - {p}
  {
    EntryOrder(p, p);
    forall e | e in v && Prefix6(e) == p ensures e == Enter6(p) {
      EntryIs(e, p);
    }
    hide Enter6, Prefix6;
    forall q ensures q in Stored6(r) <==> q in Stored6(v) - {p} {
      if q in Stored6(v) && q != p {
        var x :| x in v && Prefix6(x) == q;
        assert x in r;
      }
    }
  }

  method Store4(v: seq<nat>, p: Prefix) returns (added: bool, r: seq<nat>)
    requires Kept4(v) && Valid(32, p)
    ensures Kept4(r) && added == (p !in Stored4(v)) && Stored4(r) == Stored4(v) + {p} && (!added ==> r == v)
  {
    assert p.len < 256 && Unpack4(Pack4(p)) == p;
    hide Valid, Stored4, Unpack4, Pack4;
    var packed := Pack4(p);
    var at := Search(v, Key4, Key4(packed));
    Present(v, Key4, packed, at);
    Stored4Has(v, p);
    if at < |v| && v[at] == packed {
      assert Stored4(v) == Stored4(v) + {p};
      return false, v;
    }
    SplicedIn(v, Key4, packed, at);
    r := v[..at] + [packed] + v[at..];
    Grown4(v, r, p);
    added := true;
  }

  method Remove4(v: seq<nat>, p: Prefix) returns (found: bool, r: seq<nat>)
    requires Kept4(v) && Valid(32, p)
    ensures Kept4(r) && found == (p in Stored4(v)) && Stored4(r) == Stored4(v) - {p} && (!found ==> r == v)
  {
    assert p.len < 256;
    hide Valid, Stored4, Unpack4, Pack4;
    var packed := Pack4(p);
    var at := Search(v, Key4, Key4(packed));
    Present(v, Key4, packed, at);
    Stored4Has(v, p);
    if at >= |v| || v[at] != packed {
      assert Stored4(v) == Stored4(v) - {p};
      return false, v;
    }
    SplicedOut(v, Key4, packed, at);
    r := v[..at] + v[at + 1..];
    Shrunk4(v, r, p);
    found := true;
  }

  method Store6(v: seq<Entry6>, p: Prefix) returns (added: bool, r: seq<Entry6>)
    requires Kept6(v) && Valid(128, p)
    ensures Kept6(r) && added == (p !in Stored6(v)) && Stored6(r) == Stored6(v) + {p} && (!added ==> r == v)
  {
    EntryOrder(p, p);
    WideParts(p.key);
    var want := Enter6(p);
    assert want.high < WORD && want.low < WORD && Valid(128, Prefix6(want));
    KeysDiffer(v, want);
    hide Valid, Stored6, Prefix6, Enter6, Key6, Pow2;
    var at := Search(v, Key6, Key6(want));
    Present(v, Key6, want, at);
    Stored6Has(v, p);
    if at < |v| && v[at] == want {
      assert Stored6(v) == Stored6(v) + {p};
      return false, v;
    }
    SplicedIn(v, Key6, want, at);
    r := v[..at] + [want] + v[at..];
    Grown6(v, r, p);
    added := true;
  }

  method Remove6(v: seq<Entry6>, p: Prefix) returns (found: bool, r: seq<Entry6>)
    requires Kept6(v) && Valid(128, p)
    ensures Kept6(r) && found == (p in Stored6(v)) && Stored6(r) == Stored6(v) - {p} && (!found ==> r == v)
  {
    EntryOrder(p, p);
    WideParts(p.key);
    var want := Enter6(p);
    KeysDiffer(v, want);
    hide Valid, Stored6, Prefix6, Enter6, Key6, Pow2;
    var at := Search(v, Key6, Key6(want));
    Present(v, Key6, want, at);
    Stored6Has(v, p);
    if at >= |v| || v[at] != want {
      assert Stored6(v) == Stored6(v) - {p};
      return false, v;
    }
    SplicedOut(v, Key6, want, at);
    r := v[..at] + v[at + 1..];
    Shrunk6(v, r, p);
    found := true;
  }

  // ---------------------------------------------------------------- coverage of a whole range

  // The covering range is open at first, and no boundary closes it before last.
  lemma RangeCovered(space: nat, rs: seq<Range>, bounds: seq<nat>, first: nat, last: nat, c: nat)
    requires FormOf(space, rs, false, bounds) && Rising(bounds) && first <= last < space && Splits(bounds, first, c)
    ensures c % 2 == 1 && (c >= |bounds| || bounds[c] > last) <==> forall a: nat | first <= a <= last :: Union(rs, a)
  {
    hide FormOf, Union;
    ParityTells(space, rs, bounds, first, c);
    if c % 2 == 1 {
      if c >= |bounds| || bounds[c] > last {
        forall a: nat | first <= a <= last ensures Union(rs, a) {
          assert Splits(bounds, a, c);
          ParityTells(space, rs, bounds, a, c);
        }
      } else {
        var a := bounds[c];
        assert Splits(bounds, a, c + 1);
        ParityTells(space, rs, bounds, a, c + 1);
      }
    }
  }

  lemma WholeSplits(bounds: seq<nat>, key: nat, c: nat)
    requires SplitsIn(bounds, 0, |bounds|, key, c)
    ensures Splits(bounds, key, c)
  {
  }

  method CoversRange4(x: Index4, first: nat, last: nat, ghost rs: seq<Range>) returns (r: bool)
    requires Compiled4(rs, x) && first <= last < SPACE4
    ensures r <==> forall a: nat | first <= a <= last :: Union(rs, a)
  {
    FormFacts(SPACE4, rs, x.all, x.bounds);
    hide FormOf, Union, Splits, SplitsIn, Cut;
    if x.all {
      return true;
    }
    var count := CountAtOrBelow4(x.bounds, 0, |x.bounds|, first);
    WholeSplits(x.bounds, first, count);
    RangeCovered(SPACE4, rs, x.bounds, first, last, count);
    if count % 2 == 0 {
      return false;
    }
    r := count >= |x.bounds| || x.bounds[count] > last;
  }

  method CoversRange6(x: Index6, firstHigh: nat, firstLow: nat, lastHigh: nat, lastLow: nat,
                      ghost rs: seq<Range>) returns (r: bool)
    requires Compiled6(rs, x) && firstHigh < WORD && firstLow < WORD && lastHigh < WORD && lastLow < WORD
    requires Wide(firstHigh, firstLow) <= Wide(lastHigh, lastLow)
    ensures r <==> forall a: nat | Wide(firstHigh, firstLow) <= a <= Wide(lastHigh, lastLow) :: Union(rs, a)
  {
    ghost var bounds := Bounds6(rs);
    FormFacts(SPACE6, rs, x.all, bounds);
    ghost var first, last := Wide(firstHigh, firstLow), Wide(lastHigh, lastLow);
    assert last < SPACE6 && |x.words.high| == |bounds| && (x.words.low == [] || |x.words.low| == |bounds|);
    hide FormOf, Union, Splits, SplitsIn, Cut, PairsOf, SubTables, Wide, Bounds6;
    if x.all {
      return true;
    }
    var count := CountAtOrBelow6(x.words, 0, |x.words.high|, firstHigh, firstLow, bounds);
    WholeSplits(bounds, first, count);
    RangeCovered(SPACE6, rs, bounds, first, last, count);
    if count % 2 == 0 {
      return false;
    }
    if count >= |x.words.high| {
      return true;
    }
    var boundaryLow := if x.words.low != [] then x.words.low[count] else 0;
    PairOrder(x.words, bounds, count, lastHigh, lastLow);
    r := Cmp128(x.words.high[count], boundaryLow, lastHigh, lastLow) > 0;
  }

  lemma PairOrder(x: Pairs, bounds: seq<nat>, i: nat, high: nat, low: nat)
    requires PairsOf(x, bounds) && i < |bounds| && low < WORD
    ensures Cmp128(x.high[i], LowAt(x, i), high, low) > 0 <==> bounds[i] > Wide(high, low)
  {
    assert PairAt(x, bounds, i);
    Cmp128IsOrder(x.high[i], LowAt(x, i), high, low);
    Cmp128IsOrder(high, low, x.high[i], LowAt(x, i));
  }

  // ---------------------------------------------------------------- rebuilding

  ghost predicate Covered(w: nat, ps: set<Prefix>, a: nat) {
    exists p <- ps :: Covers(w, p, a)
  }

  // The ranges compiled into the published set stand for the prefixes.
  ghost predicate Denotes(w: nat, space: nat, rs: seq<Range>, ps: set<Prefix>) {
    forall a: nat | a < space :: Union(rs, a) <==> Covered(w, ps, a)
  }

  // One range per prefix.
  ghost predicate Spans(w: nat, ranges: seq<Range>, ps: seq<Prefix>) {
    |ranges| == |ps| && forall i :: 0 <= i < |ps| ==> Valid(w, ps[i]) && ranges[i] == Range(ps[i].key, Last(w, ps[i]))
  }

  lemma SpansFit(w: nat, ranges: seq<Range>, ps: seq<Prefix>)
    requires Spans(w, ranges, ps)
    ensures Fits(Pow2(w), ranges)
    ensures forall a: nat :: Union(ranges, a) <==> Covered(w, Members(ps), a)
  {
    forall i | 0 <= i < |ps| ensures ranges[i].first <= ranges[i].last < Pow2(w) {
      ValidFits(w, ps[i]);
    }
    forall a: nat ensures Union(ranges, a) <==> Covered(w, Members(ps), a) {
      forall i | 0 <= i < |ps| ensures In(ranges[i], a) <==> Covers(w, ps[i], a) {
        CoversIsRange(w, ps[i], a);
      }
      hide Covers, In;
      if Union(ranges, a) {
        var i :| 0 <= i < |ranges| && In(ranges[i], a);
        assert ps[i] in Members(ps);
      }
      if Covered(w, Members(ps), a) {
        var p :| p in Members(ps) && Covers(w, p, a);
        var i :| 0 <= i < |ps| && ps[i] == p;
        assert In(ranges[i], a);
      }
    }
  }

  // A compiled set that answers for the union of a set of prefixes.
  ghost predicate Answers4(x: Index4, ps: set<Prefix>) {
    exists rs :: Compiled4(rs, x) && Denotes(32, SPACE4, rs, ps)
  }

  ghost predicate Answers6(x: Index6, ps: set<Prefix>) {
    exists rs :: Compiled6(rs, x) && Denotes(128, SPACE6, rs, ps)
  }

  method Build4(v: seq<nat>) returns (x: Index4)
    requires Kept4(v)
    ensures Answers4(x, Stored4(v))
  {
    hide Valid, Compiled4, Canonical, Union, Fits, Pow2, Covers;
    var ranges := new Range[|v|];
    ghost var ps := seq(|v|, i requires 0 <= i < |v| => Unpack4(v[i]));
    for i := 0 to |v|
      invariant forall j :: 0 <= j < i ==> ps[j].len <= 32 && ranges[j] == Range(ps[j].key, Last(32, ps[j]))
    {
      var p := Unpack4(v[i]);
      assert Valid(32, p);
      LengthFits(32, p);
      ranges[i] := Range(p.key, p.key + Pow2(32 - p.len) - 1);
    }
    SpansFit(32, ranges[..], ps);
    SpaceSizes();
    assert Members(ps) == Stored4(v) by {
      forall p ensures p in Members(ps) <==> p in Stored4(v) {
        if p in Stored4(v) {
          var x :| x in v && Unpack4(x) == p;
          var i :| 0 <= i < |v| && v[i] == x;
          assert ps[i] == p;
        }
      }
    }
    var n := MergeInPlace(SPACE4, ranges);
    ghost var rs := ranges[..n];
    x := Compile4(ranges[..n]);
    assert Compiled4(rs, x) && Denotes(32, SPACE4, rs, Stored4(v));
  }

  method Build6(v: seq<Entry6>) returns (x: Index6)
    requires Kept6(v)
    ensures Answers6(x, Stored6(v))
  {
    hide Valid, Compiled6, Canonical, Union, Fits, Pow2, Covers, Wide;
    var ranges := new Range[|v|];
    ghost var ps := seq(|v|, i requires 0 <= i < |v| => Prefix6(v[i]));
    for i := 0 to |v|
      invariant forall j :: 0 <= j < i ==> ps[j].len <= 128 && ranges[j] == Range(ps[j].key, Last(128, ps[j]))
    {
      var e := v[i];
      assert ps[i] == Prefix6(e) == Prefix(Wide(e.high, e.low), e.bits);
      LengthFits(128, ps[i]);
      LastWordsIsLast(e.high, e.low, e.bits);
      var last := LastWords(e.high, e.low, e.bits);
      ranges[i] := Range(Wide(e.high, e.low), Wide(last.0, last.1));
    }
    SpansFit(128, ranges[..], ps);
    Pow2Word();
    assert Members(ps) == Stored6(v) by {
      forall p ensures p in Members(ps) <==> p in Stored6(v) {
        if p in Stored6(v) {
          var x :| x in v && Prefix6(x) == p;
          var i :| 0 <= i < |v| && v[i] == x;
          assert ps[i] == p;
        }
      }
    }
    var n := MergeInPlace(SPACE6, ranges);
    ghost var rs := ranges[..n];
    x := Compile6(ranges[..n]);
    assert Compiled6(rs, x) && Denotes(128, SPACE6, rs, Stored6(v));
  }

  // ---------------------------------------------------------------- the table

  datatype Set = Set(v4: Index4, v6: Index6)

  datatype Mutation = Mutation(prefix: Raw, delete: bool)

  ghost function Apply(s: set<Network>, m: Mutation): set<Network>
    requires Decompose(m.prefix).Some?
  {
    var n := Decompose(m.prefix).value;
    if m.delete then s - {n} else s + {n}
  }

  // The stored prefixes after the mutations before the first bad one, and whether there was none.
  ghost function Fold(s: set<Network>, ms: seq<Mutation>): (set<Network>, bool) {
    if |ms| == 0 then (s, true)
    else
      var r := Fold(s, ms[..|ms| - 1]);
      if r.1 && Decompose(ms[|ms| - 1].prefix).Some? then (Apply(r.0, ms[|ms| - 1]), true) else (r.0, false)
  }

  // What is stored after the first k mutations, when those are good: the last of them naming a network decides
  // it, and a network none of them names is as it was.
  lemma {:induction false} FoldMeans(s: set<Network>, ms: seq<Mutation>, k: nat)
    requires k <= |ms| && forall i :: 0 <= i < k ==> Decompose(ms[i].prefix).Some?
    requires k < |ms| ==> Decompose(ms[k].prefix).None?
    ensures Fold(s, ms).1 <==> k == |ms|
    ensures forall i | 0 <= i < k && (forall j :: i < j < k ==> Decompose(ms[j].prefix) != Decompose(ms[i].prefix)) ::
              Decompose(ms[i].prefix).value in Fold(s, ms).0 <==> !ms[i].delete
    ensures forall n: Network | (forall i :: 0 <= i < k ==> Decompose(ms[i].prefix) != Some(n)) ::
              n in Fold(s, ms).0 <==> n in s
  {
    hide Decompose;
    if k < |ms| {
      assert ms[..k][..k] == ms[..k];
      FoldMeans(s, ms[..k], k);
      BadStops(s, ms, k);
    } else if k > 0 {
      var front := ms[..k - 1];
      assert forall i :: 0 <= i < k - 1 ==> front[i] == ms[i];
      FoldMeans(s, front, k - 1);
      forall i | 0 <= i < k && (forall j :: i < j < k ==> Decompose(ms[j].prefix) != Decompose(ms[i].prefix))
        ensures Decompose(ms[i].prefix).value in Fold(s, ms).0 <==> !ms[i].delete
      {
        if i < k - 1 {
          assert forall j :: i < j < k - 1 ==> Decompose(front[j].prefix) != Decompose(front[i].prefix);
        }
      }
    }
  }

  // Stored networks by family.
  ghost function Both(v4: seq<nat>, v6: seq<Entry6>): set<Network> {
    Joined(Stored4(v4), Stored6(v6))
  }

  ghost function Joined(s4: set<Prefix>, s6: set<Prefix>): set<Network> {
    (set p | p in s4 :: Network(true, p)) + (set p | p in s6 :: Network(false, p))
  }

  ghost predicate InAny(s: set<Network>, is4: bool, a: nat) {
    exists n <- s :: n.is4 == is4 && Covers(FamilyWidth(is4), n.prefix, a)
  }

  // Every address of a network's range lies in one of the set.
  ghost predicate InAnyThroughout(s: set<Network>, n: Network)
    requires n.prefix.len <= FamilyWidth(n.is4)
  {
    forall a: nat | n.prefix.key <= a <= Last(FamilyWidth(n.is4), n.prefix) :: InAny(s, n.is4, a)
  }

  lemma FamilyCovers(s4: set<Prefix>, s6: set<Prefix>, a: nat)
    ensures InAny(Joined(s4, s6), true, a) <==> Covered(32, s4, a)
    ensures InAny(Joined(s4, s6), false, a) <==> Covered(128, s6, a)
  {
    hide Covers;
    if Covered(32, s4, a) {
      var p :| p in s4 && Covers(32, p, a);
      assert Network(true, p) in Joined(s4, s6);
    }
    if Covered(128, s6, a) {
      var p :| p in s6 && Covers(128, p, a);
      assert Network(false, p) in Joined(s4, s6);
    }
  }

  // One family's prefixes with a network's own added.
  ghost function Grown(ps: set<Prefix>, is4: bool, n: Network): set<Prefix> {
    if n.is4 == is4 then ps + {n.prefix} else ps
  }

  // What is shown after storing n: more of the same when it covered all of n, what is stored otherwise.
  ghost predicate Follows(n: Network, before: set<Network>, after: set<Network>, stored: set<Network>) {
    n.prefix.len <= FamilyWidth(n.is4)
    && after == if InAnyThroughout(before, n) then before + {n} else stored
  }

  lemma NetworkFits(n: Network)
    requires ValidNetwork(n)
    ensures n.prefix.len <= FamilyWidth(n.is4) && Prefixes.Valid(FamilyWidth(n.is4), n.prefix)
  {
  }

  lemma JoinedStep(s4: set<Prefix>, s6: set<Prefix>, n: Network)
    ensures Joined(Grown(s4, true, n), Grown(s6, false, n)) == Joined(s4, s6) + {n}
  {
  }

  // The ranges of a family cover a network throughout exactly when the networks shown do.
  lemma ThroughRanges(rs4: seq<Range>, rs6: seq<Range>, s4: set<Prefix>, s6: set<Prefix>, n: Network)
    requires ValidNetwork(n) && n.prefix.len <= FamilyWidth(n.is4)
    requires Denotes(32, SPACE4, rs4, s4) && Denotes(128, SPACE6, rs6, s6)
    ensures InAnyThroughout(Joined(s4, s6), n) <==>
              forall a: nat | n.prefix.key <= a <= Last(FamilyWidth(n.is4), n.prefix) ::
                if n.is4 then Union(rs4, a) else Union(rs6, a)
  {
    ValidFits(FamilyWidth(n.is4), n.prefix);
    SpaceSizes();
    hide InAny, Union, Covered, Prefixes.Valid, Pow2, Joined;
    forall a: nat | n.prefix.key <= a <= Last(FamilyWidth(n.is4), n.prefix)
      ensures InAny(Joined(s4, s6), n.is4, a) <==> if n.is4 then Union(rs4, a) else Union(rs6, a)
    {
      FamilyCovers(s4, s6, a);
    }
  }

  // Two sets the same ranges stand for cover the same networks.
  lemma SameCover(rs4: seq<Range>, rs6: seq<Range>, s4: set<Prefix>, s6: set<Prefix>, t4: set<Prefix>, t6: set<Prefix>,
                  n: Network)
    requires ValidNetwork(n) && n.prefix.len <= FamilyWidth(n.is4)
    requires Denotes(32, SPACE4, rs4, s4) && Denotes(128, SPACE6, rs6, s6)
    requires Denotes(32, SPACE4, rs4, t4) && Denotes(128, SPACE6, rs6, t6)
    ensures InAnyThroughout(Joined(s4, s6), n) <==> InAnyThroughout(Joined(t4, t6), n)
  {
    hide Denotes, InAnyThroughout, ValidNetwork, Union, Joined;
    ThroughRanges(rs4, rs6, s4, s6, n);
    ThroughRanges(rs4, rs6, t4, t6, n);
  }

  // The ranges stand for one more network when they cover all of it.
  lemma DenotesMore(rs4: seq<Range>, rs6: seq<Range>, s4: set<Prefix>, s6: set<Prefix>, n: Network)
    requires ValidNetwork(n) && n.prefix.len <= FamilyWidth(n.is4)
    requires Denotes(32, SPACE4, rs4, s4) && Denotes(128, SPACE6, rs6, s6) && InAnyThroughout(Joined(s4, s6), n)
    ensures Denotes(32, SPACE4, rs4, Grown(s4, true, n)) && Denotes(128, SPACE6, rs6, Grown(s6, false, n))
  {
    ThroughRanges(rs4, rs6, s4, s6, n);
    NetworkFits(n);
    SpaceSizes();
    ValidFits(FamilyWidth(n.is4), n.prefix);
    hide Denotes, InAnyThroughout, Prefixes.Valid, Union, Pow2, Joined;
    if n.is4 {
      CoveredChangesNothing(32, SPACE4, rs4, s4, n.prefix);
    } else {
      CoveredChangesNothing(128, SPACE6, rs6, s6, n.prefix);
    }
  }

  // Storing a prefix whose whole range is covered already cannot change an answer.
  lemma CoveredChangesNothing(w: nat, space: nat, rs: seq<Range>, ps: set<Prefix>, p: Prefix)
    requires Prefixes.Valid(w, p) && Denotes(w, space, rs, ps) && Last(w, p) < space
    requires forall a: nat | p.key <= a <= Last(w, p) :: Union(rs, a)
    ensures Denotes(w, space, rs, ps + {p})
  {
    forall a: nat | a < space ensures Union(rs, a) <==> Covered(w, ps + {p}, a) {
      CoversIsRange(w, p, a);
      hide Covers, Union, Prefixes.Valid;
      assert p in ps + {p};
      if Covered(w, ps, a) {
        var q :| q in ps && Covers(w, q, a);
        assert q in ps + {p};
      }
    }
  }

  // Everything handed to Reset, decomposed.
  ghost function Decomposed(raws: seq<Raw>): set<Network> {
    set r | r in raws && Decompose(r).Some? :: Decompose(r).value
  }

  // Two unsorted packed slices and the networks they stand for.
  ghost predicate Loose(v4: seq<nat>, v6: seq<Entry6>) {
    && (forall x <- v4 :: Prefixes.Valid(32, Unpack4(x)))
    && (forall e <- v6 :: e.high < WORD && e.low < WORD && Prefixes.Valid(128, Prefix6(e)))
  }

  lemma LooseStep4(v4: seq<nat>, v6: seq<Entry6>, p: Prefix)
    requires Loose(v4, v6) && Prefixes.Valid(32, p)
    ensures Loose(v4 + [Pack4(p)], v6) && Both(v4 + [Pack4(p)], v6) == Both(v4, v6) + {Network(true, p)}
  {
    assert p.len < 256;
    PackedOrder(p, p);
    Grown4(v4, v4 + [Pack4(p)], p);
  }

  lemma LooseStep6(v4: seq<nat>, v6: seq<Entry6>, p: Prefix)
    requires Loose(v4, v6) && Prefixes.Valid(128, p)
    ensures Loose(v4, v6 + [Enter6(p)]) && Both(v4, v6 + [Enter6(p)]) == Both(v4, v6) + {Network(false, p)}
  {
    EntryOrder(p, p);
    WideParts(p.key);
    Grown6(v6, v6 + [Enter6(p)], p);
  }

  // Sorted and without repeats, the slices are what the table keeps.
  method Packed4(v: seq<nat>) returns (r: seq<nat>)
    requires forall x <- v :: Prefixes.Valid(32, Unpack4(x))
    ensures Kept4(r) && Stored4(r) == Stored4(v)
  {
    hide Unpack4, Prefixes.Valid, Sorted;
    var sorted := Sort(v, Key4);
    SameElements(sorted, v);
    r := DedupSorted(sorted, Key4);
    assert Stored4(r) == Stored4(v);
  }

  method Packed6(v: seq<Entry6>) returns (r: seq<Entry6>)
    requires forall e <- v :: e.high < WORD && e.low < WORD && Prefixes.Valid(128, Prefix6(e))
    ensures Kept6(r) && Stored6(r) == Stored6(v)
  {
    forall x, y | x in v && y in v && Key6(x) == Key6(y) ensures x == y {
      EntryIs(x, Prefix6(y));
      EntryIs(y, Prefix6(y));
    }
    hide Prefix6, Key6, Prefixes.Valid, Sorted;
    var sorted := Sort(v, Key6);
    SameElements(sorted, v);
    r := DedupSorted(sorted, Key6);
    assert Stored6(r) == Stored6(v);
  }

  lemma DecomposedStep(raws: seq<Raw>, i: nat)
    requires i < |raws| && Decompose(raws[i]).Some?
    ensures Decomposed(raws[..i + 1]) == Decomposed(raws[..i]) + {Decompose(raws[i]).value}
  {
    hide Decompose;
    assert raws[..i + 1] == raws[..i] + [raws[i]];
    assert raws[i] in raws[..i + 1];
  }

  class Table {
    var v4: seq<nat>
    var v6: seq<Entry6>
    var current: Set
    ghost var ranges4: seq<Range>
    ghost var ranges6: seq<Range>
    ghost var shown4: set<Prefix>
    ghost var shown6: set<Prefix>

    ghost predicate Valid()
      reads this
    {
      && Kept4(v4) && Kept6(v6)
      && Compiled4(ranges4, current.v4) && Compiled6(ranges6, current.v6)
      && Denotes(32, SPACE4, ranges4, shown4) && Denotes(128, SPACE6, ranges6, shown6)
    }

    ghost function Stored(): set<Network>
      reads this
    {
      Both(v4, v6)
    }

    // The networks whose union the published set answers for.
    ghost function Shown(): set<Network>
      reads this
    {
      Joined(shown4, shown6)
    }

    // What is published is what is stored, as it always is but after a failed batch.
    ghost predicate Synced()
      reads this
    {
      Valid() && shown4 == Stored4(v4) && shown6 == Stored6(v6)
    }

    constructor ()
      ensures Synced() && Stored() == {}
    {
      shown4, shown6 := {}, {};
      v4, v6 := [], [];
      current := Set(Index4(false, [], [], []), Index6(false, Pairs([], []), [], [], [], []));
      ranges4, ranges6 := [], [];
      new;
      EmptyCompiled();
    }

    // Recompiles the set from the stored slices.
    method Republish()
      requires Valid()
      modifies this`current, this`ranges4, this`ranges6, this`shown4, this`shown6
      ensures Synced()
    {
      hide Kept4, Kept6, Compiled4, Compiled6, Denotes;
      var x4 := Build4(v4);
      var x6 := Build6(v6);
      ghost var rs4 :| Compiled4(rs4, x4) && Denotes(32, SPACE4, rs4, Stored4(v4));
      ghost var rs6 :| Compiled6(rs6, x6) && Denotes(128, SPACE6, rs6, Stored6(v6));
      current := Set(x4, x6);
      ranges4, ranges6 := rs4, rs6;
      shown4, shown6 := Stored4(v4), Stored6(v6);
    }

    method Contains4(key: nat) returns (r: bool)
      requires Valid() && key < SPACE4
      ensures r <==> InAny(Shown(), true, key)
    {
      hide Compiled4, Compiled6, Kept4, Kept6, InAny, Union, Covered;
      r := ParityLookup.Contains4(current.v4, key, ranges4);
      FamilyCovers(shown4, shown6, key);
    }

    method Contains6(high: nat, low: nat) returns (r: bool)
      requires Valid() && high < WORD && low < WORD
      ensures r <==> InAny(Shown(), false, Wide(high, low))
    {
      hide Compiled4, Compiled6, Kept4, Kept6, InAny, Union, Covered;
      r := ParityLookup.Contains6(current.v6, high, low, ranges6);
      assert Wide(high, low) < SPACE6;
      FamilyCovers(shown4, shown6, Wide(high, low));
    }

    method Store(n: Network) returns (added: bool)
      requires Valid() && ValidNetwork(n)
      modifies this`v4, this`v6
      ensures Valid() && added == (n !in old(Stored())) && Stored() == old(Stored()) + {n}
      ensures !added ==> v4 == old(v4) && v6 == old(v6)
      ensures added ==> if n.is4 then v6 == old(v6) && Stored4(v4) == old(Stored4(v4)) + {n.prefix}
                                 else v4 == old(v4) && Stored6(v6) == old(Stored6(v6)) + {n.prefix}
    {
      hide Kept4, Kept6, Compiled4, Compiled6, Stored4, Stored6, Prefixes.Valid;
      if n.is4 {
        added, v4 := Store4(v4, n.prefix);
      } else {
        added, v6 := Store6(v6, n.prefix);
      }
    }

    method Remove(n: Network) returns (found: bool)
      requires Valid() && ValidNetwork(n)
      modifies this`v4, this`v6
      ensures Valid() && found == (n in old(Stored())) && Stored() == old(Stored()) - {n}
      ensures !found ==> v4 == old(v4) && v6 == old(v6)
    {
      hide Kept4, Kept6, Compiled4, Compiled6, Stored4, Stored6, Prefixes.Valid;
      if n.is4 {
        found, v4 := Remove4(v4, n.prefix);
      } else {
        found, v6 := Remove6(v6, n.prefix);
      }
    }

    // Whether the published set covers every address of the prefix.
    method CoversRangeOf(n: Network) returns (r: bool)
      requires Valid() && ValidNetwork(n)
      ensures n.prefix.len <= FamilyWidth(n.is4) && (r <==> InAnyThroughout(Shown(), n))
    {
      var p := n.prefix;
      NetworkFits(n);
      ValidFits(FamilyWidth(n.is4), p);
      SpaceSizes();
      Pow2Word();
      hide InAny, Covered, Joined;
      if n.is4 {
        hide Compiled4, Compiled6, Kept4, Kept6, Union, Prefixes.Valid, Pow2;
        r := CoversRange4(current.v4, p.key, p.key + Pow2(32 - p.len) - 1, ranges4);
      } else {
        WideParts(p.key);
        LastWordsIsLast(High(p.key), Low(p.key), p.len);
        var last := LastWords(High(p.key), Low(p.key), p.len);
        hide Compiled4, Compiled6, Kept4, Kept6, Union, Prefixes.Valid, Pow2, Wide, LastWords;
        r := CoversRange6(current.v6, High(p.key), Low(p.key), last.0, last.1, ranges6);
      }
      ThroughRanges(ranges4, ranges6, shown4, shown6, n);
    }

    // A new prefix is published by recompiling, unless the published set covers all of it already.
    method Insert(raw: Raw) returns (added: bool)
      requires Valid() && InFamily(raw)
      modifies this
      ensures Valid()
      ensures added == (Decompose(raw).Some? && Decompose(raw).value !in old(Stored()))
      ensures Stored() == old(Stored()) + if Decompose(raw).Some? then {Decompose(raw).value} else {}
      ensures !added ==> Shown() == old(Shown())
      ensures added ==> Follows(Decompose(raw).value, old(Shown()), Shown(), Stored())
      ensures old(Synced()) ==> Synced()
    {
      hide Decompose, Kept4, Kept6, Compiled4, Compiled6, Denotes, Stored4, Stored6, ValidNetwork, InAny, Joined, Last;
      DecomposeIsCanonical(raw);
      var d := Decompose(raw);
      if d.None? {
        return false;
      }
      added := Store(d.value);
      if !added {
        return;
      }
      var covered := CoversRangeOf(d.value);
      if covered {
        Unchanged(d.value);
        JoinedStep(shown4, shown6, d.value);
        if d.value.is4 { shown4 := shown4 + {d.value.prefix}; } else { shown6 := shown6 + {d.value.prefix}; }
      } else {
        Republish();
      }
    }

    // The published ranges stand for one more network when they cover all of it.
    lemma Unchanged(n: Network)
      requires Valid() && ValidNetwork(n) && n.prefix.len <= FamilyWidth(n.is4) && InAnyThroughout(Shown(), n)
      ensures Denotes(32, SPACE4, ranges4, Grown(shown4, true, n)) && Denotes(128, SPACE6, ranges6, Grown(shown6, false, n))
    {
      DenotesMore(ranges4, ranges6, shown4, shown6, n);
    }

    method Delete(raw: Raw) returns (found: bool)
      requires Valid() && InFamily(raw)
      modifies this
      ensures Valid()
      ensures found == (Decompose(raw).Some? && Decompose(raw).value in old(Stored()))
      ensures Stored() == old(Stored()) - if Decompose(raw).Some? then {Decompose(raw).value} else {}
      ensures if found then Synced() else Shown() == old(Shown())
      ensures old(Synced()) ==> Synced()
    {
      hide Decompose, Kept4, Kept6, Compiled4, Compiled6, Denotes, Stored4, Stored6, ValidNetwork, Joined;
      DecomposeIsCanonical(raw);
      var d := Decompose(raw);
      if d.None? {
        return false;
      }
      found := Remove(d.value);
      if found {
        Republish();
      }
    }

    // Without a bad prefix the batch is applied in order and the published set follows; a bad prefix
    // stops it, leaving the earlier mutations stored but the published set as it was.
    method ApplyBatch(ms: seq<Mutation>) returns (ok: bool, ghost k: nat)
      requires Valid() && forall m <- ms :: InFamily(m.prefix)
      modifies this
      ensures Valid() && (Stored(), ok) == Fold(old(Stored()), ms)
      ensures k <= |ms| && (forall i :: 0 <= i < k ==> Decompose(ms[i].prefix).Some?)
      ensures if ok then k == |ms| else k < |ms| && Decompose(ms[k].prefix).None?
      ensures forall i | 0 <= i < k && (forall j :: i < j < k ==> Decompose(ms[j].prefix) != Decompose(ms[i].prefix)) ::
                Decompose(ms[i].prefix).value in Stored() <==> !ms[i].delete
      ensures forall n: Network | (forall i :: 0 <= i < k ==> Decompose(ms[i].prefix) != Some(n)) ::
                n in Stored() <==> n in old(Stored())
      ensures !ok ==> current == old(current) && Shown() == old(Shown())
      ensures ok ==> Synced() || current == old(current)
      ensures ok && old(Synced()) ==> Synced()
    {
      var changed := false;
      ghost var s4, s6 := shown4, shown6;
      hide Decompose, Kept4, Kept6, Compiled4, Compiled6, Denotes, Stored4, Stored6, ValidNetwork, InFamily, Both, Joined;
      for i := 0 to |ms|
        invariant Valid() && (Stored(), true) == Fold(old(Stored()), ms[..i])
        invariant forall j :: 0 <= j < i ==> Decompose(ms[j].prefix).Some?
        invariant Denotes(32, SPACE4, ranges4, s4) && Denotes(128, SPACE6, ranges6, s6)
        invariant old(Synced()) && !changed ==> s4 == Stored4(v4) && s6 == Stored6(v6)
        invariant current == old(current) && shown4 == old(shown4) && shown6 == old(shown6)
      {
        assert ms[..i + 1][..i] == ms[..i];
        DecomposeIsCanonical(ms[i].prefix);
        var d := Decompose(ms[i].prefix);
        if d.None? {
          BadStops(old(Stored()), ms, i);
          FoldMeans(old(Stored()), ms, i);
          return false, i;
        }
        var didChange;
        didChange, s4, s6 := ApplyOne(d.value, ms[i].delete, s4, s6);
        changed := changed || didChange;
      }
      assert ms[..|ms|] == ms;
      FoldMeans(old(Stored()), ms, |ms|);
      if changed {
        Republish();
      } else {
        shown4, shown6 := s4, s6;
      }
      ok, k := true, |ms|;
    }

    // One mutation of a batch, and whether the published set may have to follow.  s4 and s6 are what the
    // published set stands for, counting the covered prefixes of the batch.
    method ApplyOne(n: Network, delete: bool, ghost s4: set<Prefix>, ghost s6: set<Prefix>)
      returns (changed: bool, ghost r4: set<Prefix>, ghost r6: set<Prefix>)
      requires Valid() && ValidNetwork(n)
      requires Denotes(32, SPACE4, ranges4, s4) && Denotes(128, SPACE6, ranges6, s6)
      modifies this`v4, this`v6
      ensures Valid() && Stored() == if delete then old(Stored()) - {n} else old(Stored()) + {n}
      ensures Denotes(32, SPACE4, ranges4, r4) && Denotes(128, SPACE6, ranges6, r6)
      ensures !changed && s4 == old(Stored4(v4)) && s6 == old(Stored6(v6)) ==> r4 == Stored4(v4) && r6 == Stored6(v6)
    {
      hide Kept4, Kept6, Compiled4, Compiled6, Denotes, Stored4, Stored6, ValidNetwork, InAny, Joined, Last;
      r4, r6 := s4, s6;
      if delete {
        changed := Remove(n);
        return;
      }
      var added := Store(n);
      if !added {
        return false, s4, s6;
      }
      var covered := CoversRangeOf(n);
      if covered {
        NetworkFits(n);
        SameCover(ranges4, ranges6, shown4, shown6, s4, s6, n);
        DenotesMore(ranges4, ranges6, s4, s6, n);
        r4, r6 := Grown(s4, true, n), Grown(s6, false, n);
      }
      changed := !covered;
    }

    // Replaces everything, or nothing when a prefix is bad.
    method Reset(raws: seq<Raw>) returns (ok: bool)
      requires Valid() && forall r <- raws :: InFamily(r)
      modifies this
      ensures Valid() && ok == (forall r <- raws :: Decompose(r).Some?)
      ensures if ok then Synced() && Stored() == Decomposed(raws) else unchanged(this)
      ensures ok ==> forall n :: n in Stored() <==> exists i :: 0 <= i < |raws| && Decompose(raws[i]) == Some(n)
    {
      hide Joined, Decompose, Kept4, Kept6, Compiled4, Compiled6, Denotes, Stored4, Stored6, ValidNetwork, InFamily, Loose;
      hide Enter6, Pack4;
      var next4: seq<nat>, next6: seq<Entry6> := [], [];
      NothingStored();
      for i := 0 to |raws|
        invariant unchanged(this)
        invariant Loose(next4, next6) && Both(next4, next6) == Decomposed(raws[..i])
        invariant forall j :: 0 <= j < i ==> Decompose(raws[j]).Some?
      {
        DecomposeIsCanonical(raws[i]);
        var d := Decompose(raws[i]);
        if d.None? {
          return false;
        }
        DecomposedStep(raws, i);
        var n := d.value;
        ValidIn(n);
        if n.is4 {
          LooseStep4(next4, next6, n.prefix);
          next4 := next4 + [Pack4(n.prefix)];
        } else {
          LooseStep6(next4, next6, n.prefix);
          next6 := next6 + [Enter6(n.prefix)];
        }
      }
      assert raws[..|raws|] == raws;
      LooseParts(next4, next6);
      v4 := Packed4(next4);
      v6 := Packed6(next6);
      Republish();
      DecomposedHas(raws);
      ok := true;
    }
  }

  lemma DecomposedHas(raws: seq<Raw>)
    ensures forall n :: n in Decomposed(raws) <==> exists i :: 0 <= i < |raws| && Decompose(raws[i]) == Some(n)
  {
    hide Decompose;
    forall n | n in Decomposed(raws) ensures exists i :: 0 <= i < |raws| && Decompose(raws[i]) == Some(n) {
      var r :| r in raws && Decompose(r).Some? && Decompose(r).value == n;
    }
    forall i | 0 <= i < |raws| && Decompose(raws[i]).Some? ensures Decompose(raws[i]).value in Decomposed(raws) {
      assert raws[i] in raws;
    }
  }

  lemma LooseParts(v4: seq<nat>, v6: seq<Entry6>)
    requires Loose(v4, v6)
    ensures forall x <- v4 :: Prefixes.Valid(32, Unpack4(x))
    ensures forall e <- v6 :: e.high < WORD && e.low < WORD && Prefixes.Valid(128, Prefix6(e))
  {
  }

  lemma EmptyCompiled()
    ensures Compiled4([], Index4(false, [], [], []))
    ensures Compiled6([], Index6(false, Pairs([], []), [], [], [], []))
  {
  }

  lemma NothingStored()
    ensures Loose([], []) && Both([], []) == {}
  {
  }

  lemma {:induction false} BadStops(s: set<Network>, ms: seq<Mutation>, i: nat)
    requires i < |ms| && Decompose(ms[i].prefix).None? && Fold(s, ms[..i]).1
    ensures Fold(s, ms) == (Fold(s, ms[..i]).0, false)
  {
    if |ms| == i + 1 {
      assert ms[..|ms| - 1] == ms[..i];
    } else {
      var front := ms[..|ms| - 1];
      assert front[..i] == ms[..i];
      BadStops(s, front, i);
    }
  }
}
