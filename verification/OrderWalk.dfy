// orderwalk.Table: no trie at all.  A front table and a bisection find the last route at or below an
// address; the longest match is the first route up its parent chain that contains the address.
module OrderWalk {
  import opened Bits
  import opened Options
  import opened Prefixes
  import opened Requests
  import opened Sorting
  import opened Words
  import opened WordArrays
  import opened Slots
  import opened Preorder

  datatype Table<V> = Table(front4: seq<nat>, front6: seq<nat>, key4: seq<nat>, key6: Pairs,
                            bits: seq<nat>, parent: seq<nat>, values: seq<V>, count4: nat)

  // ---------------------------------------------------------------- the front table

  ghost function Count(s: seq<nat>, v: nat): nat {
    if |s| == 0 then 0 else Count(s[..|s| - 1], v) + if s[|s| - 1] == v then 1 else 0
  }

  // How many entries lie below b.
  ghost function Below(s: seq<nat>, b: nat): nat {
    if |s| == 0 then 0 else Below(s[..|s| - 1], b) + if s[|s| - 1] < b then 1 else 0
  }

  lemma {:induction false} BelowStep(s: seq<nat>, b: nat)
    ensures Below(s, b + 1) == Below(s, b) + Count(s, b)
  {
    if |s| > 0 {
      BelowStep(s[..|s| - 1], b);
    }
  }

  lemma {:induction false} BelowZero(s: seq<nat>)
    ensures Below(s, 0) == 0
  {
    if |s| > 0 {
      BelowZero(s[..|s| - 1]);
    }
  }

  // In an ascending list the entries below b come first.
  lemma {:induction false} BelowSplits(s: seq<nat>, b: nat)
    requires forall i, j :: 0 <= i < j < |s| ==> s[i] <= s[j]
    ensures Below(s, b) <= |s|
    ensures forall i :: 0 <= i < |s| ==> (s[i] < b <==> i < Below(s, b))
  {
    if |s| > 0 {
      var front := s[..|s| - 1];
      BelowSplits(front, b);
      assert forall i :: 0 <= i < |front| ==> front[i] == s[i];
    }
  }

  // Counts per slot turned into running totals.
  method BuildFront(slots: seq<nat>) returns (front: array<nat>)
    requires forall i :: 0 <= i < |slots| ==> slots[i] < SLOTS
    ensures fresh(front) && front.Length == SLOTS + 1
    ensures forall b :: 0 <= b <= SLOTS ==> front[b] == Below(slots, b)
  {
    front := new nat[SLOTS + 1](i => 0);
    for i := 0 to |slots|
      invariant front[0] == 0
      invariant forall v :: 0 <= v < SLOTS ==> front[v + 1] == Count(slots[..i], v)
    {
      assert slots[..i + 1][..i] == slots[..i];
      front[slots[i] + 1] := front[slots[i] + 1] + 1;
    }
    assert slots[..|slots|] == slots;
    BelowZero(slots);
    for b := 1 to SLOTS + 1
      invariant forall v :: b <= v <= SLOTS ==> front[v] == Count(slots, v - 1)
      invariant forall v :: 0 <= v < b ==> front[v] == Below(slots, v)
    {
      BelowStep(slots, b - 1);
      front[b] := front[b] + front[b - 1];
    }
  }

  ghost predicate FrontOk(keys: seq<nat>, shift: nat, front: seq<nat>) {
    |front| == SLOTS + 1 && forall b :: 0 <= b <= SLOTS ==> IsOff(keys, shift, b, front[b])
  }

  lemma FrontIsOff(keys: seq<nat>, shift: nat, slots: seq<nat>, b: nat)
    requires |slots| == |keys| && forall i :: 0 <= i < |keys| ==> slots[i] == Shr(keys[i], shift)
    requires forall i, j :: 0 <= i < j < |keys| ==> keys[i] <= keys[j]
    ensures IsOff(keys, shift, b, Below(slots, b))
  {
    forall i, j | 0 <= i < j < |slots| ensures slots[i] <= slots[j] {
      ShrMono(keys[i], keys[j], shift);
    }
    BelowSplits(slots, b);
    hide Shr, Below;
  }

  // ---------------------------------------------------------------- what the arrays hold

  // The keys of one family, whose routes are numbered from base + 1.
  ghost predicate Block(nets: seq<Network>, is4: bool, base: nat, keys: seq<nat>) {
    && base + |keys| <= |nets|
    && forall r :: 0 < r <= |nets| ==>
         if base < r <= base + |keys| then Route(nets, r).is4 == is4 && Route(nets, r).prefix.key == keys[r - 1 - base]
         else Route(nets, r).is4 != is4
  }

  // keys6 are the IPv6 keys as numbers.
  ghost predicate Indexed<V>(nets: seq<Network>, t: Table<V>, keys6: seq<nat>) {
    && Catalogue(nets) && t.count4 == |t.key4| && t.count4 + |keys6| == |nets|
    && Block(nets, true, 0, t.key4) && Block(nets, false, t.count4, keys6) && PairsOf(t.key6, keys6)
    && FrontOk(t.key4, 16, t.front4) && FrontOk(keys6, 112, t.front6)
    && Parents(nets, t.parent, |nets|) && Lengths(nets, t.bits)
  }

  // A table of a catalogue.
  ghost predicate Indexes<V>(t: Table<V>, catalog: map<Network, V>) {
    exists nets, keys6 :: Indexed(nets, t, keys6) && Holding(nets, t.values, catalog)
  }

  ghost predicate Lengths(nets: seq<Network>, bits: seq<nat>) {
    |bits| == |nets| + 1 && forall r :: 0 < r <= |nets| ==> bits[r] == Route(nets, r).prefix.len
  }

  ghost predicate Holding<V>(nets: seq<Network>, values: seq<V>, catalog: map<Network, V>) {
    && (forall n :: n in nets <==> n in catalog) && |values| == |nets| + 1
    && forall r :: 0 < r <= |nets| ==> Route(nets, r) in catalog && values[r] == catalog[Route(nets, r)]
  }

  // ---------------------------------------------------------------- the predecessor

  // No route of the family after r has its address at or below a.
  ghost predicate Predecessor(nets: seq<Network>, is4: bool, a: nat, r: nat) {
    && r <= |nets| && (r > 0 ==> Route(nets, r).is4 == is4 && Route(nets, r).prefix.key <= a)
    && forall j :: r < j <= |nets| && Route(nets, j).is4 == is4 ==> Route(nets, j).prefix.key > a
  }

  // Bounds of the part of an ascending list at or below a.
  ghost predicate Cut(keys: seq<nat>, a: nat, low: nat, high: nat) {
    && low <= high <= |keys|
    && (forall i :: 0 <= i < low ==> keys[i] <= a)
    && (forall i :: high <= i < |keys| ==> keys[i] > a)
  }

  lemma CutIsPredecessor(nets: seq<Network>, is4: bool, base: nat, keys: seq<nat>, a: nat, at: nat)
    requires Block(nets, is4, base, keys) && Cut(keys, a, at, at)
    ensures Predecessor(nets, is4, a, if at == 0 then 0 else base + at)
  {
    var r := if at == 0 then 0 else base + at;
    forall j | r < j <= |nets| && Route(nets, j).is4 == is4 ensures Route(nets, j).prefix.key > a {
      assert Route(nets, j).prefix.key == keys[j - 1 - base];
    }
  }

  // The key's block of the front table narrows the search.
  lemma FrontCuts(keys: seq<nat>, shift: nat, front: seq<nat>, w: nat, key: nat, block: nat)
    requires FrontOk(keys, shift, front) && w == shift + 16 && key < Pow2(w) && block == Shr(key, shift)
    ensures block + 1 < |front| && Cut(keys, key, front[block], front[block + 1])
    ensures forall i :: 0 <= i < |keys| && keys[i] == key ==> front[block] <= i < front[block + 1]
  {
    KeyInSlots(w, shift, key);
    hide Shr, Pow2;
    SlotSplits(keys, shift, key, front[block], front[block + 1]);
  }

  method Predecessor4<V>(t: Table<V>, key: nat, ghost nets: seq<Network>, ghost keys6: seq<nat>) returns (r: nat)
    requires Indexed(nets, t, keys6) && key < Pow2(32)
    ensures Predecessor(nets, true, key, r)
  {
    hide Shr, Parents, Catalogue, PairsOf, Block, FrontOk, Predecessor, Pow2, Lengths;
    var block := Shr(key, 16);
    FrontCuts(t.key4, 16, t.front4, 32, key, block);
    var low, high := t.front4[block], t.front4[block + 1];
    while low < high
      invariant Cut(t.key4, key, low, high)
    {
      var mid := (low + high) / 2;
      CutMoves(nets, true, 0, t.key4, key, low, mid, high);
      if t.key4[mid] > key {
        high := mid;
      } else {
        low := mid + 1;
      }
    }
    CutIsPredecessor(nets, true, 0, t.key4, key, low);
    r := low;
  }

  // Keys ascend within a family, so one probe moves a bound.
  lemma CutMoves(nets: seq<Network>, is4: bool, base: nat, keys: seq<nat>, a: nat, low: nat, mid: nat, high: nat)
    requires Catalogue(nets) && Block(nets, is4, base, keys) && Cut(keys, a, low, high) && low <= mid < high
    ensures if keys[mid] > a then Cut(keys, a, low, mid) else Cut(keys, a, mid + 1, high)
  {
    hide Catalogue;
    forall i, j | 0 <= i < j < |keys| ensures keys[i] <= keys[j] {
      KeysAscend(nets, is4, base, keys, i, j);
    }
    hide Block;
  }

  lemma KeysAscend(nets: seq<Network>, is4: bool, base: nat, keys: seq<nat>, i: nat, j: nat)
    requires Catalogue(nets) && Block(nets, is4, base, keys) && i < j < |keys|
    ensures keys[i] <= keys[j]
  {
    RoutesOrdered(nets, base + i + 1, base + j + 1);
    hide Catalogue;
    assert Route(nets, base + i + 1).prefix.key == keys[i];
    assert Route(nets, base + j + 1).prefix.key == keys[j];
  }

  method Predecessor6<V>(t: Table<V>, hi: nat, lo: nat, ghost nets: seq<Network>, ghost keys6: seq<nat>)
    returns (r: nat)
    requires Indexed(nets, t, keys6) && hi < WORD && lo < WORD
    ensures Predecessor(nets, false, Wide(hi, lo), r)
  {
    ghost var key := Wide(hi, lo);
    assert key < WORD * WORD;
    Pow2Word();
    ShrHigh(hi, lo, 48);
    assert |t.key6.high| == |keys6| && (t.key6.low == [] || |t.key6.low| == |keys6|);
    hide Shr, Parents, Catalogue, PairsOf, Block, FrontOk, Predecessor, Pow2, Lengths, Wide, Past;
    var block := Shr(hi, 48);
    FrontCuts(keys6, 112, t.front6, 128, key, block);
    var low, high := t.front6[block], t.front6[block + 1];
    while low < high
      invariant Cut(keys6, key, low, high)
    {
      var mid := (low + high) / 2;
      CutMoves(nets, false, t.count4, keys6, key, low, mid, high);
      PastIsAbove(t.key6, keys6, mid, hi, lo);
      if Past(t.key6, mid, hi, lo) {
        high := mid;
      } else {
        low := mid + 1;
      }
    }
    CutIsPredecessor(nets, false, t.count4, keys6, key, low);
    if low == 0 {
      return 0;
    }
    r := t.count4 + low;
  }

  // ---------------------------------------------------------------- the climb

  // Where the climb stands: r is at or below the address and every later route misses it.
  ghost predicate Climbing(nets: seq<Network>, is4: bool, a: nat, r: nat) {
    && r <= |nets| && (r > 0 ==> Route(nets, r).is4 == is4 && Route(nets, r).prefix.key <= a)
    && forall j :: r < j <= |nets| ==> !RouteContains(nets, j, is4, a)
  }

  lemma ClimbStarts(nets: seq<Network>, is4: bool, a: nat, r: nat)
    requires Catalogue(nets) && Predecessor(nets, is4, a, r)
    ensures Climbing(nets, is4, a, r)
  {
    forall j | r < j <= |nets| ensures !RouteContains(nets, j, is4, a) {
      if Route(nets, j).is4 == is4 {
        CoversIsRange(FamilyWidth(is4), Route(nets, j).prefix, a);
      }
    }
  }

  lemma ClimbStep(nets: seq<Network>, parent: seq<nat>, is4: bool, a: nat, r: nat)
    requires Catalogue(nets) && Parents(nets, parent, |nets|) && Climbing(nets, is4, a, r) && r > 0
    requires !RouteContains(nets, r, is4, a)
    ensures Climbing(nets, is4, a, parent[r]) && parent[r] < r
  {
    var p := parent[r];
    assert ParentIs(nets, r, p);
    ParentSkipsNone(nets, r, p, a);
    ParentBelow(nets, r, p);
    hide Catalogue, RouteContains, Route;
    forall j | p < j <= |nets| ensures !RouteContains(nets, j, is4, a) {
    }
  }

  // A parent is of the same family and its address is not above.
  lemma ParentBelow(nets: seq<Network>, r: int, p: nat)
    requires Catalogue(nets) && IsRoute(nets, r) && ParentIs(nets, r, p)
    ensures p > 0 ==> Route(nets, p).is4 == Route(nets, r).is4 && Route(nets, p).prefix.key <= Route(nets, r).prefix.key
  {
    if p > 0 {
      assert Holds(nets, p, r);
      RoutesOrdered(nets, p, r);
      hide Catalogue;
    }
  }

  method Match4<V>(t: Table<V>, key: nat, ghost nets: seq<Network>, ghost keys6: seq<nat>) returns (route: nat)
    requires Indexed(nets, t, keys6) && key < Pow2(32)
    ensures LastContaining(nets, true, key, route)
  {
    hide Parents, Catalogue, PairsOf, FrontOk, Predecessor, Climbing, Pow2, Shr;
    route := Predecessor4(t, key, nets, keys6);
    ClimbStarts(nets, true, key, route);
    Stands(nets, true, key, route);
    ParentsFit(nets, t.parent);
    while route != 0 && !Covers(32, Prefix(t.key4[route - 1], t.bits[route]), key)
      invariant Climbing(nets, true, key, route) && route <= |t.key4|
      decreases route
    {
      Agrees4(nets, t, keys6, key, route);
      ClimbStep(nets, t.parent, true, key, route);
      route := t.parent[route];
      Stands(nets, true, key, route);
    }
    if route != 0 {
      Agrees4(nets, t, keys6, key, route);
    }
    ClimbEnds(nets, true, key, route);
  }

  lemma ParentsFit(nets: seq<Network>, parent: seq<nat>)
    requires Parents(nets, parent, |nets|)
    ensures |parent| == |nets| + 1
  {
  }

  lemma Stands(nets: seq<Network>, is4: bool, a: nat, r: nat)
    requires Climbing(nets, is4, a, r)
    ensures r <= |nets| && (r > 0 ==> Route(nets, r).is4 == is4)
  {
  }

  lemma ClimbEnds(nets: seq<Network>, is4: bool, a: nat, r: nat)
    requires Climbing(nets, is4, a, r) && (r > 0 ==> RouteContains(nets, r, is4, a))
    ensures LastContaining(nets, is4, a, r)
  {
  }

  // The test on the arrays is the route's containment.
  lemma Agrees4<V>(nets: seq<Network>, t: Table<V>, keys6: seq<nat>, key: nat, r: nat)
    requires Indexed(nets, t, keys6) && 0 < r <= |t.key4|
    ensures Covers(32, Prefix(t.key4[r - 1], t.bits[r]), key) <==> RouteContains(nets, r, true, key)
  {
    hide Catalogue, Parents, Covers, FrontOk, PairsOf;
    assert Route(nets, r).prefix == Prefix(t.key4[r - 1], t.bits[r]);
  }

  lemma Agrees6<V>(nets: seq<Network>, t: Table<V>, keys6: seq<nat>, hi: nat, lo: nat, r: nat)
    requires Indexed(nets, t, keys6) && t.count4 < r <= |nets| && hi < WORD && lo < WORD
    ensures var i := r - t.count4 - 1;
            && i < |t.key6.high| && (t.key6.low == [] || i < |t.key6.low|) && t.bits[r] <= 128
            && (Covers6(t.key6.high[i], LowAt(t.key6, i), t.bits[r], hi, lo) <==> RouteContains(nets, r, false, Wide(hi, lo)))
  {
    var i := r - t.count4 - 1;
    RoutesOrdered(nets, r, r);
    assert Route(nets, r).is4 == false;
    assert Route(nets, r).prefix == Prefix(keys6[i], t.bits[r]);
    assert PairAt(t.key6, keys6, i);
    assert t.bits[r] <= 128;
    hide Catalogue, Parents, Covers, Covers6, FrontOk;
    Covers6IsCovers(t.key6.high[i], LowAt(t.key6, i), t.bits[r], hi, lo);
  }

  method Match6<V>(t: Table<V>, hi: nat, lo: nat, ghost nets: seq<Network>, ghost keys6: seq<nat>)
    returns (route: nat)
    requires Indexed(nets, t, keys6) && hi < WORD && lo < WORD
    ensures LastContaining(nets, false, Wide(hi, lo), route)
  {
    ghost var key := Wide(hi, lo);
    hide Parents, Catalogue, PairsOf, FrontOk, Predecessor, Climbing, Pow2, Shr, Wide, Covers6, LowAt;
    route := Predecessor6(t, hi, lo, nets, keys6);
    ClimbStarts(nets, false, key, route);
    Stands(nets, false, key, route);
    ParentsFit(nets, t.parent);
    while route != 0
      invariant Climbing(nets, false, key, route) && (route > 0 ==> t.count4 < route <= |nets|)
      decreases route
    {
      Agrees6(nets, t, keys6, hi, lo, route);
      var position := route - t.count4 - 1;
      if Covers6(t.key6.high[position], LowAt(t.key6, position), t.bits[route], hi, lo) {
        break;
      }
      ClimbStep(nets, t.parent, false, key, route);
      route := t.parent[route];
      Stands(nets, false, key, route);
    }
    if route != 0 {
      Agrees6(nets, t, keys6, hi, lo, route);
    }
    ClimbEnds(nets, false, key, route);
  }

  // ---------------------------------------------------------------- walking up

  // The routes up to r that contain the address, last first.
  ghost function Supernets(nets: seq<Network>, is4: bool, a: nat, r: nat): seq<nat>
    requires r <= |nets|
  {
    if r == 0 then []
    else if RouteContains(nets, r, is4, a) then [r] + Supernets(nets, is4, a, r - 1)
    else Supernets(nets, is4, a, r - 1)
  }

  ghost predicate LongestFirst(nets: seq<Network>, s: seq<nat>) {
    && (forall k :: 0 <= k < |s| ==> IsRoute(nets, s[k]))
    && forall k, l :: 0 <= k < l < |s| ==> s[l] < s[k] && Route(nets, s[l]).prefix.len < Route(nets, s[k]).prefix.len
  }

  // Exactly the containing routes, each strictly shorter than the one before it.
  lemma {:induction false} SupernetsShrink(nets: seq<Network>, is4: bool, a: nat, r: nat)
    requires Catalogue(nets) && r <= |nets|
    ensures forall j :: j in Supernets(nets, is4, a, r) <==> 0 < j <= r && RouteContains(nets, j, is4, a)
    ensures LongestFirst(nets, Supernets(nets, is4, a, r))
  {
    if r > 0 {
      SupernetsShrink(nets, is4, a, r - 1);
      hide Catalogue, RouteContains, Route;
      var s, rest := Supernets(nets, is4, a, r), Supernets(nets, is4, a, r - 1);
      if RouteContains(nets, r, is4, a) {
        forall l | 0 <= l < |rest| ensures IsRoute(nets, rest[l]) && Route(nets, rest[l]).prefix.len < Route(nets, r).prefix.len {
          assert rest[l] in rest;
          LaterContainsLonger(nets, rest[l], r, is4, a);
        }
        assert forall l :: 0 <= l < |rest| ==> rest[l] in rest;
        assert s == [r] + rest;
      }
    }
  }

  lemma {:induction false} SupernetsSkip(nets: seq<Network>, is4: bool, a: nat, p: nat, r: nat)
    requires p <= r <= |nets| && forall j :: p < j <= r ==> !RouteContains(nets, j, is4, a)
    ensures Supernets(nets, is4, a, r) == Supernets(nets, is4, a, p)
  {
    hide RouteContains;
    if p < r {
      SupernetsSkip(nets, is4, a, p, r - 1);
    }
  }

  // A matched route's chain of parents is the chain of its supernets.
  lemma NextSupernet(nets: seq<Network>, parent: seq<nat>, is4: bool, a: nat, r: nat)
    requires Catalogue(nets) && Parents(nets, parent, |nets|) && 0 < r <= |nets| && RouteContains(nets, r, is4, a)
    ensures parent[r] < r && Supernets(nets, is4, a, r) == [r] + Supernets(nets, is4, a, parent[r])
    ensures parent[r] > 0 ==> RouteContains(nets, parent[r], is4, a)
  {
    var p := parent[r];
    assert ParentIs(nets, r, p);
    CoversIsRange(FamilyWidth(is4), Route(nets, r).prefix, a);
    ParentSkipsNone(nets, r, p, a);
    if p > 0 {
      HoldsAll(nets, p, r, a);
    }
    hide Catalogue, RouteContains, Route;
    SupernetsSkip(nets, is4, a, p, r - 1);
  }

  function Take(s: seq<nat>, quota: nat): seq<nat> {
    if |s| <= quota then s else s[..quota]
  }

  lemma MatchIsFirst(nets: seq<Network>, parent: seq<nat>, is4: bool, a: nat, route: nat)
    requires Parents(nets, parent, |nets|) && LastContaining(nets, is4, a, route)
    ensures |parent| == |nets| + 1 && route <= |nets| && (route > 0 ==> RouteContains(nets, route, is4, a))
    ensures Supernets(nets, is4, a, |nets|) == Supernets(nets, is4, a, route)
  {
    SupernetsSkip(nets, is4, a, route, |nets|);
  }

  // Visits the match and its ancestors; the caller stops it after quota routes.
  method ClimbParents<V>(t: Table<V>, match_: nat, quota: nat, ghost nets: seq<Network>, ghost is4: bool, ghost a: nat)
    returns (out: seq<nat>)
    requires Catalogue(nets) && Parents(nets, t.parent, |nets|) && LastContaining(nets, is4, a, match_) && quota > 0
    ensures out == Take(Supernets(nets, is4, a, |nets|), quota)
  {
    hide Catalogue, Parents, LastContaining, Supernets, RouteContains, Take, Route;
    MatchIsFirst(nets, t.parent, is4, a, match_);
    ghost var full := Supernets(nets, is4, a, |nets|);
    out := [];
    var route: nat := match_;
    while route != 0
      invariant route <= |nets| && |out| < quota && (route > 0 ==> RouteContains(nets, route, is4, a))
      invariant full == out + Supernets(nets, is4, a, route)
      decreases route
    {
      NextSupernet(nets, t.parent, is4, a, route);
      ghost var rest := Supernets(nets, is4, a, t.parent[route]);
      Regroup(out, route, rest);
      out := out + [route];
      if |out| == quota {
        Taken(out, rest, quota);
        return;
      }
      route := t.parent[route];
    }
    NoSupernets(nets, is4, a);
    Taken(out, [], quota);
  }

  lemma Regroup(out: seq<nat>, r: nat, rest: seq<nat>)
    ensures out + ([r] + rest) == (out + [r]) + rest
  {
  }

  lemma Taken(out: seq<nat>, rest: seq<nat>, quota: nat)
    requires |out| == quota || (|out| < quota && rest == [])
    ensures Take(out + rest, quota) == out
  {
  }

  lemma NoSupernets(nets: seq<Network>, is4: bool, a: nat)
    ensures Supernets(nets, is4, a, 0) == []
  {
  }

  // The first routes of the list: containing ones, each shorter than the one before, and any containing
  // route left out is shorter still and was left out because the caller stopped.
  lemma WalkTells(nets: seq<Network>, is4: bool, a: nat, quota: nat, out: seq<nat>)
    requires Catalogue(nets) && out == Take(Supernets(nets, is4, a, |nets|), quota)
    ensures |out| <= quota
    ensures forall k | 0 <= k < |out| :: 0 < out[k] <= |nets| && var n := nets[out[k] - 1];
              n.is4 == is4 && Covers(FamilyWidth(is4), n.prefix, a)
    ensures forall k, l | 0 <= k < l < |out| :: nets[out[l] - 1].prefix.len < nets[out[k] - 1].prefix.len
    ensures forall r | 0 < r <= |nets| && r !in out && var n := nets[r - 1]; n.is4 == is4 && Covers(FamilyWidth(is4), n.prefix, a) ::
              |out| == quota && forall k | 0 <= k < quota :: nets[r - 1].prefix.len < nets[out[k] - 1].prefix.len
  {
    hide Catalogue, Supernets, Covers, Take, LongestFirst;
    SupernetsShrink(nets, is4, a, |nets|);
    TakenContain(nets, is4, a, Supernets(nets, is4, a, |nets|), quota, out);
    forall r | 0 < r <= |nets| && nets[r - 1].is4 == is4 && Covers(FamilyWidth(is4), nets[r - 1].prefix, a) && r !in out
      ensures |out| == quota && forall k | 0 <= k < quota :: nets[r - 1].prefix.len < nets[out[k] - 1].prefix.len
    {
      assert Route(nets, r) == nets[r - 1];
      LeftOut(nets, is4, a, Supernets(nets, is4, a, |nets|), quota, out, r);
    }
  }

  lemma TakenContain(nets: seq<Network>, is4: bool, a: nat, s: seq<nat>, quota: nat, out: seq<nat>)
    requires LongestFirst(nets, s) && out == Take(s, quota)
    requires forall r <- s :: 0 < r <= |nets| && RouteContains(nets, r, is4, a)
    ensures |out| <= quota
    ensures forall k | 0 <= k < |out| :: 0 < out[k] <= |nets| && var n := nets[out[k] - 1];
              n.is4 == is4 && Covers(FamilyWidth(is4), n.prefix, a)
    ensures forall k, l | 0 <= k < l < |out| :: nets[out[l] - 1].prefix.len < nets[out[k] - 1].prefix.len
  {
    hide Covers;
    forall k | 0 <= k < |out|
      ensures out[k] == s[k] && 0 < out[k] <= |nets| && Route(nets, s[k]) == nets[out[k] - 1]
      ensures RouteContains(nets, s[k], is4, a)
    {
      assert s[k] in s;
    }
  }

  lemma LeftOut(nets: seq<Network>, is4: bool, a: nat, s: seq<nat>, quota: nat, out: seq<nat>, r: nat)
    requires LongestFirst(nets, s) && out == Take(s, quota) && 0 < r <= |nets| && r in s && r !in out
    ensures |out| == quota
    ensures forall k | 0 <= k < quota :: 0 < out[k] <= |nets| && nets[r - 1].prefix.len < nets[out[k] - 1].prefix.len
  {
    var l :| 0 <= l < |s| && s[l] == r;
    assert forall k | 0 <= k < |out| :: out[k] == s[k];
    forall k | 0 <= k < quota ensures 0 < out[k] <= |nets| && nets[r - 1].prefix.len < nets[out[k] - 1].prefix.len {
      assert Route(nets, s[l]).prefix.len < Route(nets, s[k]).prefix.len;
    }
  }

  method WalkParents4<V>(t: Table<V>, key: nat, quota: nat, ghost nets: seq<Network>, ghost keys6: seq<nat>)
    returns (out: seq<nat>)
    requires Indexed(nets, t, keys6) && key < Pow2(32) && quota > 0
    ensures |out| <= quota
    ensures forall k | 0 <= k < |out| :: 0 < out[k] <= |nets| && var n := nets[out[k] - 1];
              n.is4 && Covers(32, n.prefix, key)
    ensures forall k, l | 0 <= k < l < |out| :: nets[out[l] - 1].prefix.len < nets[out[k] - 1].prefix.len
    ensures forall r | 0 < r <= |nets| && nets[r - 1].is4 && Covers(32, nets[r - 1].prefix, key) && r !in out ::
              |out| == quota && forall k | 0 <= k < quota :: nets[r - 1].prefix.len < nets[out[k] - 1].prefix.len
  {
    hide Parents, Catalogue, PairsOf, FrontOk, Block, Lengths, LastContaining, Pow2, Supernets, Take, Covers;
    var route := Match4(t, key, nets, keys6);
    out := ClimbParents(t, route, quota, nets, true, key);
    WalkTells(nets, true, key, quota, out);
  }

  method WalkParents6<V>(t: Table<V>, hi: nat, lo: nat, quota: nat, ghost nets: seq<Network>, ghost keys6: seq<nat>)
    returns (out: seq<nat>)
    requires Indexed(nets, t, keys6) && hi < WORD && lo < WORD && quota > 0
    ensures |out| <= quota
    ensures forall k | 0 <= k < |out| :: 0 < out[k] <= |nets| && var n := nets[out[k] - 1];
              !n.is4 && Covers(128, n.prefix, Wide(hi, lo))
    ensures forall k, l | 0 <= k < l < |out| :: nets[out[l] - 1].prefix.len < nets[out[k] - 1].prefix.len
    ensures forall r | 0 < r <= |nets| && !nets[r - 1].is4 && Covers(128, nets[r - 1].prefix, Wide(hi, lo)) && r !in out ::
              |out| == quota && forall k | 0 <= k < quota :: nets[r - 1].prefix.len < nets[out[k] - 1].prefix.len
  {
    hide Parents, Catalogue, PairsOf, FrontOk, Block, Lengths, LastContaining, Wide, Supernets, Take, Covers;
    var route := Match6(t, hi, lo, nets, keys6);
    out := ClimbParents(t, route, quota, nets, false, Wide(hi, lo));
    WalkTells(nets, false, Wide(hi, lo), quota, out);
  }

  // ---------------------------------------------------------------- exact match

  // The run of routes searched: every one below low precedes p, none from high on does.
  ghost predicate Narrowed(nets: seq<Network>, p: Prefix, base: nat, first: nat, low: nat, high: nat, last: nat) {
    && first <= low <= high <= last && base + last <= |nets|
    && (forall r :: base + first < r <= base + low ==> Before(Route(nets, r).prefix, p))
    && (forall r :: base + high < r <= base + last ==> !Before(Route(nets, r).prefix, p))
  }

  lemma NarrowMoves(nets: seq<Network>, is4: bool, p: Prefix, base: nat, keys: seq<nat>, first: nat, low: nat, mid: nat,
                    high: nat, last: nat)
    requires Catalogue(nets) && Block(nets, is4, base, keys) && last <= |keys|
    requires Narrowed(nets, p, base, first, low, high, last) && low <= mid < high
    ensures var here := Route(nets, base + mid + 1).prefix;
            if Before(here, p) then Narrowed(nets, p, base, first, mid + 1, high, last)
            else Narrowed(nets, p, base, first, low, mid, last)
  {
    var m := base + mid + 1;
    forall r | base < r <= base + |keys| ensures
        (r <= m && Before(Route(nets, m).prefix, p) ==> Before(Route(nets, r).prefix, p)) &&
        (m <= r && !Before(Route(nets, m).prefix, p) ==> !Before(Route(nets, r).prefix, p))
    {
      assert Route(nets, r).is4 == is4 && Route(nets, m).is4 == is4;
      if r < m {
        RoutesOrdered(nets, r, m);
      } else {
        RoutesOrdered(nets, m, r);
      }
    }
    hide Catalogue, Block, Before;
  }

  lemma Unsearched(nets: seq<Network>, p: Prefix, base: nat, first: nat, last: nat)
    requires first <= last && base + last <= |nets|
    ensures Narrowed(nets, p, base, first, first, last, last)
  {
  }

  // The search ends where the prefix is, if it is anywhere.
  lemma NarrowFinds(nets: seq<Network>, is4: bool, p: Prefix, base: nat, keys: seq<nat>, first: nat, low: nat, last: nat)
    requires Catalogue(nets) && Block(nets, is4, base, keys) && last <= |keys|
    requires Narrowed(nets, p, base, first, low, low, last)
    requires forall i :: 0 <= i < |keys| && keys[i] == p.key ==> first <= i < last
    ensures Network(is4, p) in nets <==> low < last && Route(nets, base + low + 1).prefix == p
    ensures low < last ==> Route(nets, base + low + 1).is4 == is4
  {
    if Network(is4, p) in nets {
      var i :| 0 <= i < |nets| && nets[i] == Network(is4, p);
      var r := i + 1;
      assert Route(nets, r) == Network(is4, p);
      assert base < r <= base + |keys| && keys[r - 1 - base] == p.key;
      assert !Before(p, p);
      assert r > base + low;
      FoundFirst(nets, is4, p, base, keys, low, last, r);
    }
    if low < last {
      assert Route(nets, base + low + 1).is4 == is4;
    }
  }

  lemma FoundFirst(nets: seq<Network>, is4: bool, p: Prefix, base: nat, keys: seq<nat>, low: nat, last: nat, r: int)
    requires Catalogue(nets) && Block(nets, is4, base, keys) && last <= |keys|
    requires base + low < r <= base + last && Route(nets, r) == Network(is4, p)
    requires forall j :: base + low < j <= base + last ==> !Before(Route(nets, j).prefix, p)
    ensures r == base + low + 1
  {
    var m := base + low + 1;
    assert !Before(Route(nets, m).prefix, p) && Route(nets, m).is4 == is4;
    RoutesOrdered(nets, m, r);
  }

  method Exact4<V>(t: Table<V>, p: Prefix, ghost nets: seq<Network>, ghost keys6: seq<nat>) returns (r: nat)
    requires Indexed(nets, t, keys6) && Valid(32, p)
    ensures if r > 0 then r <= |nets| && Route(nets, r) == Network(true, p) else Network(true, p) !in nets
  {
    hide Shr, Parents, Catalogue, PairsOf, FrontOk, Pow2, Cut;
    var block := Shr(p.key, 16);
    FrontCuts(t.key4, 16, t.front4, 32, p.key, block);
    CutRun(t.key4, p.key, t.front4[block], t.front4[block + 1]);
    ghost var first: nat, last: nat := t.front4[block], t.front4[block + 1];
    var low: nat, high: nat := t.front4[block], t.front4[block + 1];
    while low < high
      invariant Narrowed(nets, p, 0, first, low, high, last)
    {
      var mid := (low + high) / 2;
      NarrowMoves(nets, true, p, 0, t.key4, first, low, mid, high, last);
      Agrees(nets, true, 0, t.key4, t.bits, mid);
      if t.key4[mid] > p.key || (t.key4[mid] == p.key && t.bits[mid + 1] >= p.len) {
        high := mid;
      } else {
        low := mid + 1;
      }
    }
    NarrowFinds(nets, true, p, 0, t.key4, first, low, last);
    if low < t.front4[block + 1] {
      Agrees(nets, true, 0, t.key4, t.bits, low);
      if t.key4[low] == p.key && t.bits[low + 1] == p.len {
        return low + 1;
      }
    }
    return 0;
  }

  lemma CutRun(keys: seq<nat>, a: nat, low: nat, high: nat)
    requires Cut(keys, a, low, high)
    ensures low <= high <= |keys|
  {
  }

  lemma Agrees(nets: seq<Network>, is4: bool, base: nat, keys: seq<nat>, bits: seq<nat>, i: nat)
    requires Block(nets, is4, base, keys) && Lengths(nets, bits) && i < |keys|
    ensures base + i + 1 <= |nets| && |bits| == |nets| + 1
    ensures Route(nets, base + i + 1) == Network(is4, Prefix(keys[i], bits[base + i + 1]))
  {
    var r := base + i + 1;
    assert Route(nets, r).prefix.key == keys[r - 1 - base];
  }

  // The bisection's test: addresses first, lengths when they tie.
  predicate AtOrAfter6(x: Pairs, i: nat, bits: nat, hi: nat, lo: nat, len: nat)
    requires i < |x.high| && (x.low == [] || i < |x.low|)
  {
    x.high[i] > hi || (x.high[i] == hi && (LowAt(x, i) > lo || (LowAt(x, i) == lo && bits >= len)))
  }

  lemma ProbeIsOrder<V>(nets: seq<Network>, t: Table<V>, keys6: seq<nat>, i: nat, p: Prefix)
    requires Indexed(nets, t, keys6) && i < |keys6| && Valid(128, p)
    ensures t.count4 + i + 1 < |t.bits| && i < |t.key6.high| && (t.key6.low == [] || i < |t.key6.low|)
    ensures AtOrAfter6(t.key6, i, t.bits[t.count4 + i + 1], High(p.key), Low(p.key), p.len)
        <==> !Before(Route(nets, t.count4 + i + 1).prefix, p)
    ensures Route(nets, t.count4 + i + 1).is4 == false
    ensures Route(nets, t.count4 + i + 1).prefix == p
        <==> t.key6.high[i] == High(p.key) && LowAt(t.key6, i) == Low(p.key) && t.bits[t.count4 + i + 1] == p.len
  {
    WideParts(p.key);
    var hi, lo := High(p.key), Low(p.key);
    Agrees(nets, false, t.count4, keys6, t.bits, i);
    WordsAgree(t.key6, keys6, i, hi, lo);
    hide Catalogue, Parents, FrontOk, PairsOf, Block, Lengths, Wide, Valid;
  }

  method Exact6<V>(t: Table<V>, p: Prefix, ghost nets: seq<Network>, ghost keys6: seq<nat>) returns (r: nat)
    requires Indexed(nets, t, keys6) && Valid(128, p)
    ensures if r > 0 then r <= |nets| && Route(nets, r) == Network(false, p) else Network(false, p) !in nets
  {
    hide Shr, Parents, Catalogue, PairsOf, FrontOk, Pow2, Cut, Wide, LowAt, High, Low, AtOrAfter6, Block, Lengths, Narrowed,
      Valid, Before;
    var hi, lo := High(p.key), Low(p.key);
    Halves(p);
    Sizes6(nets, t, keys6);
    var block := Shr(hi, 48);
    FrontCuts(keys6, 112, t.front6, 128, p.key, block);
    CutRun(keys6, p.key, t.front6[block], t.front6[block + 1]);
    ghost var first: nat, last: nat := t.front6[block], t.front6[block + 1];
    Unsearched(nets, p, t.count4, first, last);
    var low: nat, high: nat := t.front6[block], t.front6[block + 1];
    while low < high
      invariant first <= low <= high <= last && Narrowed(nets, p, t.count4, first, low, high, last)
    {
      var mid := (low + high) / 2;
      NarrowMoves(nets, false, p, t.count4, keys6, first, low, mid, high, last);
      ProbeIsOrder(nets, t, keys6, mid, p);
      if AtOrAfter6(t.key6, mid, t.bits[t.count4 + mid + 1], hi, lo, p.len) {
        high := mid;
      } else {
        low := mid + 1;
      }
    }
    NarrowFinds(nets, false, p, t.count4, keys6, first, low, last);
    if low < t.front6[block + 1] {
      ProbeIsOrder(nets, t, keys6, low, p);
      if t.key6.high[low] == hi && LowAt(t.key6, low) == lo && t.bits[t.count4 + low + 1] == p.len {
        return t.count4 + low + 1;
      }
    }
    return 0;
  }

  lemma Halves(p: Prefix)
    requires Valid(128, p)
    ensures p.key < Pow2(128) && Shr(High(p.key), 48) == Shr(p.key, 112)
  {
    WideParts(p.key);
    ShrHigh(High(p.key), Low(p.key), 48);
  }

  lemma WordsAgree(x: Pairs, keys: seq<nat>, i: nat, hi: nat, lo: nat)
    requires PairsOf(x, keys) && i < |keys| && hi < WORD && lo < WORD
    ensures x.high[i] > hi || (x.high[i] == hi && LowAt(x, i) > lo) <==> keys[i] > Wide(hi, lo)
    ensures x.high[i] == hi && LowAt(x, i) == lo <==> keys[i] == Wide(hi, lo)
  {
    assert PairAt(x, keys, i);
    Cmp128IsOrder(hi, lo, x.high[i], LowAt(x, i));
  }

  // ---------------------------------------------------------------- walking down

  function RoutesFrom(r: nat, e: nat): seq<nat> {
    if r < e then seq(e - r, i requires i >= 0 => r + i) else []
  }

  // What an exact query asks for: the normalised prefix, in the family its address belongs to.
  function Sought(raw: Raw): Option<Network> {
    var n := Normalize(raw);
    if n.Some? && !n.value.is4 && n.value.prefix.key / 0x1_0000_0000 == MAPPED then
      if n.value.prefix.len < 96 then None
      else Some(Network(true, Prefix(n.value.prefix.key % 0x1_0000_0000, n.value.prefix.len - 96)))
    else n
  }

  method Exact<V>(t: Table<V>, raw: Raw, ghost nets: seq<Network>, ghost keys6: seq<nat>) returns (r: nat)
    requires Indexed(nets, t, keys6) && InFamily(raw)
    ensures if r > 0 then r <= |nets| && Sought(raw) == Some(Route(nets, r))
            else Sought(raw).Some? ==> Sought(raw).value !in nets
  {
    hide Indexed, Normalize, InFamily;
    SoughtIsValid(raw);
    var n := Sought(raw);
    if n.None? {
      return 0;
    }
    if n.value.is4 {
      r := Exact4(t, n.value.prefix, nets, keys6);
    } else {
      r := Exact6(t, n.value.prefix, nets, keys6);
    }
  }

  // Masking keeps a mapped address mapped when the prefix reaches past the mapping, and unmaps any other.
  lemma MaskMapped(a: nat, len: nat)
    requires len <= 128
    ensures len < 96 ==> Mask(128, a, len).key / 0x1_0000_0000 != MAPPED
    ensures len >= 96 ==> Mask(128, a, len).key / 0x1_0000_0000 == a / 0x1_0000_0000
    ensures len >= 96 ==> Mask(128, a, len).key % 0x1_0000_0000 == Mask(32, a % 0x1_0000_0000, len - 96).key
  {
    var low := 128 - len;
    Pow2Large();
    if len < 96 {
      Pow2Add(32, low - 32);
      Pow2Add(1, low - 33);
      assert Pow2(1) == 2 && 32 + (low - 32) == low && 1 + (low - 33) == low - 32;
      EvenMultiple(Shr(a, low), Pow2(low - 33));
    } else {
      Pow2Add(low, 32 - low);
      assert low + (32 - low) == 32;
      MaskSplit(a, Pow2(low), Pow2(32 - low));
    }
  }

  lemma EvenMultiple(q: nat, m: nat)
    ensures q * (0x1_0000_0000 * (2 * m)) / 0x1_0000_0000 == 2 * (q * m)
  {
    assert q * (0x1_0000_0000 * (2 * m)) == 2 * (q * m) * 0x1_0000_0000;
  }

  // Rounding down to a multiple of m inside a block of n multiples.
  lemma MaskSplit(a: nat, m: nat, n: nat)
    requires m > 0 && n > 0 && m * n == 0x1_0000_0000
    ensures a / m * m / 0x1_0000_0000 == a / 0x1_0000_0000
    ensures a / m * m % 0x1_0000_0000 == a % 0x1_0000_0000 / m * m
  {
    var top, rest := a / 0x1_0000_0000, a % 0x1_0000_0000;
    assert a == top * (m * n) + rest;
    MaskNumbers(rest, m);
    AddTimes(top * n, rest / m, m);
    assert top * (m * n) == top * n * m;
    DivBracket(rest, m);
    DivUnique(a, m, top * n + rest / m);
    DivUnique(a / m * m, 0x1_0000_0000, top);
  }

  // A query unmaps mapped prefixes, though the table stores them as they come.
  lemma SoughtIs(raw: Raw)
    requires InFamily(raw)
    ensures Sought(raw) == if Is4In6(raw) && 96 <= raw.len <= 128 then Decompose(raw) else Normalize(raw)
  {
    if raw.Raw? && !raw.is4 && raw.len <= 128 {
      hide Mask, Pow2;
      MaskMapped(raw.addr, raw.len);
      MaskLengths(raw.addr, raw.len);
    }
  }

  lemma MaskLengths(a: nat, len: nat)
    requires len <= 128
    ensures Mask(128, a, len).len == len
    ensures len >= 96 ==> Mask(32, a % 0x1_0000_0000, len - 96).len == len - 96
  {
  }

  lemma SoughtIsValid(raw: Raw)
    requires InFamily(raw)
    ensures Sought(raw).Some? ==> ValidNetwork(Sought(raw).value)
    ensures Sought(raw).Some? ==> Valid(FamilyWidth(Sought(raw).value.is4), Sought(raw).value.prefix)
  {
    SoughtIs(raw);
    hide Sought, Normalize, Decompose;
    NormalizeIsCanonical(raw);
    DecomposeIsCanonical(raw);
  }

  // Asking for a prefix as it was inserted finds it exactly when it is not a mapped one; a mapped prefix is
  // stored among the IPv6 routes and sought among the IPv4 ones.
  lemma InsertedIsSought(raw: Raw)
    requires InFamily(raw) && Normalize(raw).Some?
    ensures Sought(raw) == Normalize(raw) <==> !(Is4In6(raw) && raw.len >= 96)
  {
    SoughtIs(raw);
  }

  // A table holding just ::ffff:0:0/96 does not find it.
  lemma MappedIsLost<V>(v: V)
    ensures var raw := Raw(false, Map4(0), 96);
            && InFamily(raw) && Normalize(raw).Some? && Sought(raw).Some?
            && Sought(raw).value !in map[Normalize(raw).value := v]
  {
    var raw := Raw(false, Map4(0), 96);
    Pow2Large();
    Pow2Mono(48, 128);
    Pow2Add(32, 16);
    assert InFamily(raw);
    hide Mask, Pow2;
    InsertedIsSought(raw);
  }

  // The first routes of the interval, in order: routes inside this one, and all of them unless the
  // caller stopped.
  lemma ScanTells(nets: seq<Network>, route: nat, end: nat, quota: nat, out: seq<nat>)
    requires Catalogue(nets) && 0 < route <= |nets| && EndIs(nets, route, end) && quota > 0
    requires out == Take(RoutesFrom(route, end), quota)
    ensures 0 < |out| <= quota && forall k | 0 <= k < |out| :: out[k] == route + k <= |nets|
    ensures forall r <- out :: 0 < r <= |nets| && var p, n := nets[route - 1].prefix, nets[r - 1];
              n.is4 == nets[route - 1].is4 && Covers(FamilyWidth(n.is4), p, n.prefix.key) && p.len <= n.prefix.len
    ensures |out| < quota ==> forall r | 0 < r <= |nets| && nets[r - 1].is4 == nets[route - 1].is4 && r !in out ::
              var p, n := nets[route - 1].prefix, nets[r - 1];
              !(Covers(FamilyWidth(n.is4), p, n.prefix.key) && p.len <= n.prefix.len)
  {
    hide Catalogue, Covers;
    forall r | 0 < r <= |nets|
      ensures route <= r < end <==> Holds(nets, route, r) && Route(nets, route).prefix.len <= Route(nets, r).prefix.len
    {
      IntervalIsDescendants(nets, route, end, r);
    }
    var p, w := nets[route - 1].prefix, FamilyWidth(nets[route - 1].is4);
    forall r | route <= r < end && |out| < quota ensures r in out {
      assert out[r - route] == r;
    }
    forall r <- out
      ensures 0 < r <= |nets| && var n := nets[r - 1];
              n.is4 == nets[route - 1].is4 && Covers(w, p, n.prefix.key) && p.len <= n.prefix.len
    {
      assert route <= r < end && Holds(nets, route, r) && Route(nets, r) == nets[r - 1];
    }
    forall r | 0 < r <= |nets| && nets[r - 1].is4 == nets[route - 1].is4 && r !in out && |out| < quota
      ensures !(Covers(w, p, nets[r - 1].prefix.key) && p.len <= nets[r - 1].prefix.len)
    {
      assert Route(nets, r) == nets[r - 1];
    }
  }

  lemma RunGrows(route: nat, next: nat)
    requires route <= next
    ensures |RoutesFrom(route, next)| == next - route && RoutesFrom(route, next + 1) == RoutesFrom(route, next) + [next]
  {
  }

  lemma RunTaken(route: nat, next: nat, end: nat, quota: nat)
    requires route <= next <= end && (if next == end then next - route <= quota else next - route == quota)
    ensures Take(RoutesFrom(route, end), quota) == RoutesFrom(route, next)
  {
  }

  // Scans forward while the address stays inside the route's range; the caller stops it after quota routes.
  method Descend4<V>(t: Table<V>, route: nat, quota: nat, ghost nets: seq<Network>, ghost keys6: seq<nat>)
    returns (out: seq<nat>)
    requires Indexed(nets, t, keys6) && 0 < route <= |t.key4| && quota > 0
    ensures 0 < |out| <= quota && forall k | 0 <= k < |out| :: out[k] == route + k <= |nets|
    ensures forall r <- out :: 0 < r <= |nets| && var p, n := nets[route - 1].prefix, nets[r - 1];
              n.is4 && Covers(32, p, n.prefix.key) && p.len <= n.prefix.len
    ensures |out| < quota ==> forall r | 0 < r <= |nets| && nets[r - 1].is4 && r !in out ::
              var p, q := nets[route - 1].prefix, nets[r - 1].prefix; !(Covers(32, p, q.key) && p.len <= q.len)
  {
    hide Catalogue, Parents, FrontOk, PairsOf, Holds, EndIs, Covers, RoutesFrom, Take;
    ghost var end := EndOf(nets, route);
    EndFits(nets, route, end);
    LengthOk(nets, t, keys6, route);
    out := [route];
    RunGrows(route, route);
    if quota == 1 {
      RunTaken(route, route + 1, end, quota);
      ScanTells(nets, route, end, quota, out);
      return;
    }
    var last := t.key4[route - 1] + Pow2(32 - t.bits[route]) - 1;
    var next := route + 1;
    while next <= t.count4
      invariant route < next <= t.count4 + 1 && next <= end && out == RoutesFrom(route, next)
      invariant |out| == next - route < quota
    {
      StillInside4(nets, t, keys6, route, next, end);
      if t.key4[next - 1] > last {
        break;
      }
      RunGrows(route, next);
      out := out + [next];
      if |out| == quota {
        break;
      }
      next := next + 1;
    }
    FamilyEnds(nets, t, keys6, route, end);
    RunTaken(route, route + |out|, end, quota);
    ScanTells(nets, route, end, quota, out);
  }

  lemma {:induction false} EndOf(nets: seq<Network>, r: nat) returns (e: nat)
    requires Catalogue(nets) && 0 < r <= |nets|
    ensures EndIs(nets, r, e)
  {
    SelfHolds(nets, r);
    hide Catalogue, Holds;
    e := r + 1;
    while e <= |nets| && Holds(nets, r, e)
      invariant r < e <= |nets| + 1 && forall j :: r <= j < e ==> Holds(nets, r, j)
    {
      e := e + 1;
    }
    forall j | e <= j <= |nets| ensures !Holds(nets, r, j) {
      ClosedForGood(nets, r, e, j);
    }
  }

  lemma LengthOk<V>(nets: seq<Network>, t: Table<V>, keys6: seq<nat>, r: nat)
    requires Indexed(nets, t, keys6) && 0 < r <= |nets|
    ensures |t.bits| == |nets| + 1 && t.bits[r] <= FamilyWidth(Route(nets, r).is4) && (Route(nets, r).is4 <==> r <= t.count4)
  {
    RoutesOrdered(nets, r, r);
    assert Route(nets, r).prefix.len == t.bits[r];
    hide Catalogue;
  }

  lemma StillInside4<V>(nets: seq<Network>, t: Table<V>, keys6: seq<nat>, route: nat, next: nat, end: nat)
    requires Indexed(nets, t, keys6) && 0 < route < next <= |t.key4| && EndIs(nets, route, end) && t.bits[route] <= 32
    ensures next < end <==> t.key4[next - 1] <= t.key4[route - 1] + Pow2(32 - t.bits[route]) - 1
  {
    RoutesOrdered(nets, route, next);
    assert Route(nets, route) == Network(true, Prefix(t.key4[route - 1], t.bits[route]));
    assert Route(nets, next).is4 && Route(nets, next).prefix.key == t.key4[next - 1];
    CoversIsRange(32, Route(nets, route).prefix, t.key4[next - 1]);
    hide Catalogue, Parents, FrontOk, PairsOf, Covers, Valid, Pow2, Last;
    assert next < end <==> Holds(nets, route, next);
  }

  lemma FamilyEnds<V>(nets: seq<Network>, t: Table<V>, keys6: seq<nat>, route: nat, end: nat)
    requires Indexed(nets, t, keys6) && 0 < route <= t.count4 && EndIs(nets, route, end)
    ensures end <= t.count4 + 1
  {
    hide Catalogue, Parents, FrontOk, PairsOf, Covers;
    var r := t.count4 + 1;
    if r <= |nets| {
      assert Route(nets, r).is4 != Route(nets, route).is4;
      EndsBefore(nets, route, end, r);
    }
  }

  lemma EndsBefore(nets: seq<Network>, route: nat, end: nat, r: nat)
    requires 0 < route <= r <= |nets| && EndIs(nets, route, end)
    ensures !Holds(nets, route, r) ==> end <= r
  {
  }

  method Descend6<V>(t: Table<V>, route: nat, quota: nat, ghost nets: seq<Network>, ghost keys6: seq<nat>)
    returns (out: seq<nat>)
    requires Indexed(nets, t, keys6) && t.count4 < route <= |nets| && quota > 0
    ensures 0 < |out| <= quota && forall k | 0 <= k < |out| :: out[k] == route + k <= |nets|
    ensures forall r <- out :: 0 < r <= |nets| && var p, n := nets[route - 1].prefix, nets[r - 1];
              !n.is4 && Covers(128, p, n.prefix.key) && p.len <= n.prefix.len
    ensures |out| < quota ==> forall r | 0 < r <= |nets| && !nets[r - 1].is4 && r !in out ::
              var p, q := nets[route - 1].prefix, nets[r - 1].prefix; !(Covers(128, p, q.key) && p.len <= q.len)
  {
    hide Catalogue, Parents, FrontOk, PairsOf, Holds, EndIs, Covers, RoutesFrom, Take, Block, LowAt, LastWords, Cmp128,
      Lengths;
    ghost var end := EndOf(nets, route);
    Sizes6(nets, t, keys6);
    EndFits(nets, route, end);
    LengthOk(nets, t, keys6, route);
    out := [route];
    RunGrows(route, route);
    if quota == 1 {
      RunTaken(route, route + 1, end, quota);
      ScanTells(nets, route, end, quota, out);
      return;
    }
    var position := route - t.count4 - 1;
    var last := LastWords(t.key6.high[position], LowAt(t.key6, position), t.bits[route]);
    var next := route + 1;
    while next < |t.bits|
      invariant route < next <= |t.bits| && next <= end && out == RoutesFrom(route, next)
      invariant |out| == next - route < quota
    {
      var at := next - t.count4 - 1;
      StillInside6(nets, t, keys6, route, next, end);
      if Cmp128(t.key6.high[at], LowAt(t.key6, at), last.0, last.1) > 0 {
        break;
      }
      RunGrows(route, next);
      out := out + [next];
      if |out| == quota {
        break;
      }
      next := next + 1;
    }
    RunTaken(route, route + |out|, end, quota);
    ScanTells(nets, route, end, quota, out);
  }

  lemma Sizes6<V>(nets: seq<Network>, t: Table<V>, keys6: seq<nat>)
    requires Indexed(nets, t, keys6)
    ensures |t.key6.high| == |keys6| && (t.key6.low == [] || |t.key6.low| == |keys6|)
    ensures t.count4 + |keys6| == |nets| && |t.bits| == |nets| + 1
  {
  }

  lemma EndFits(nets: seq<Network>, r: nat, e: nat)
    requires 0 < r <= |nets| && EndIs(nets, r, e)
    ensures r < e <= |nets| + 1
  {
  }

  lemma StillInside6<V>(nets: seq<Network>, t: Table<V>, keys6: seq<nat>, route: nat, next: nat, end: nat)
    requires Indexed(nets, t, keys6) && t.count4 < route < next <= |nets| && EndIs(nets, route, end) && t.bits[route] <= 128
    requires |t.key6.high| == |keys6| && (t.key6.low == [] || |t.key6.low| == |keys6|)
    ensures var i, j := route - t.count4 - 1, next - t.count4 - 1;
            var last := LastWords(t.key6.high[i], LowAt(t.key6, i), t.bits[route]);
            next < end <==> !(Cmp128(t.key6.high[j], LowAt(t.key6, j), last.0, last.1) > 0)
  {
    var i, j := route - t.count4 - 1, next - t.count4 - 1;
    RoutesOrdered(nets, route, next);
    assert Route(nets, route) == Network(false, Prefix(keys6[i], t.bits[route]));
    assert !Route(nets, next).is4 && Route(nets, next).prefix.key == keys6[j];
    assert PairAt(t.key6, keys6, i) && PairAt(t.key6, keys6, j);
    hide Catalogue, Parents, FrontOk, PairsOf, Block;
    InsideWords(Route(nets, route).prefix, t.key6.high[i], LowAt(t.key6, i), t.key6.high[j], LowAt(t.key6, j));
    hide Covers, Valid, LastWords, Cmp128, Wide;
    assert next < end <==> Holds(nets, route, next);
  }

  lemma InsideWords(p: Prefix, high: nat, low: nat, keyHigh: nat, keyLow: nat)
    requires Valid(128, p) && p.key == Wide(high, low) && high < WORD && low < WORD && keyHigh < WORD && keyLow < WORD
    requires p.key <= Wide(keyHigh, keyLow)
    ensures var last := LastWords(high, low, p.len);
            Covers(128, p, Wide(keyHigh, keyLow)) <==> !(Cmp128(keyHigh, keyLow, last.0, last.1) > 0)
  {
    LastWordsIsLast(high, low, p.len);
    CoversIsRange(128, p, Wide(keyHigh, keyLow));
    var last := LastWords(high, low, p.len);
    hide LastWords, Covers, Valid;
    Cmp128IsOrder(keyHigh, keyLow, last.0, last.1);
  }

  // ---------------------------------------------------------------- building

  // A sort key under which networks come in preorder.
  function NetKey(n: Network): Key {
    (if n.is4 then n.prefix.key else 0x1_0000_0000 + n.prefix.key, n.prefix.len)
  }

  lemma NetKeyIsOrder(a: Network, b: Network)
    requires ValidNetwork(a) && ValidNetwork(b)
    ensures KeyLess(NetKey(a), NetKey(b)) <==> Precedes(a, b)
  {
    Pow2Word();
    Pow2Large();
    Pow2Add(16, 16);
    hide Pow2;
  }

  // A sorted listing of distinct canonical networks is a preorder catalogue.
  lemma SortedIsCatalogue(listed: seq<Network>, sorted: seq<Network>)
    requires forall n <- listed :: ValidNetwork(n)
    requires forall i, j :: 0 <= i < j < |listed| ==> listed[i] != listed[j]
    requires multiset(sorted) == multiset(listed) && Sorted(sorted, NetKey)
    ensures Catalogue(sorted) && forall n :: n in sorted <==> n in listed
  {
    SameElements(sorted, listed);
    SameApart(sorted, listed);
    forall i, j | 0 <= i < j < |sorted| ensures Precedes(sorted[i], sorted[j]) {
      var a, b := sorted[i], sorted[j];
      assert !KeyLess(NetKey(b), NetKey(a));
      assert a in listed && b in listed;
      NetKeyIsOrder(a, b);
      NetKeyIsOrder(b, a);
      hide ValidNetwork;
    }
  }

  // IPv4 routes come first, so counting them tells the family of every route.
  method CountIPv4(nets: seq<Network>) returns (count4: nat)
    requires Catalogue(nets)
    ensures count4 <= |nets| && forall r :: 0 < r <= |nets| ==> (Route(nets, r).is4 <==> r <= count4)
  {
    count4 := 0;
    hide Catalogue;
    for i := 0 to |nets|
      invariant count4 <= i && forall r :: 0 < r <= i ==> (Route(nets, r).is4 <==> r <= count4)
    {
      assert Route(nets, i + 1) == nets[i];
      if nets[i].is4 {
        if i > 0 {
          RoutesOrdered(nets, i, i + 1);
          assert Route(nets, i).is4;
        }
        count4 := count4 + 1;
      }
    }
  }

  // The keys of the routes numbered base + 1 to base + n.
  ghost function Keys(nets: seq<Network>, base: nat, n: nat): (s: seq<nat>)
    requires base + n <= |nets|
    ensures |s| == n && forall i :: 0 <= i < n ==> s[i] == nets[base + i].prefix.key
  {
    if n == 0 then [] else Keys(nets, base, n - 1) + [nets[base + n - 1].prefix.key]
  }

  lemma KeysAreBlock(nets: seq<Network>, is4: bool, base: nat, n: nat)
    requires base + n <= |nets| && forall r :: 0 < r <= |nets| ==> (Route(nets, r).is4 == is4 <==> base < r <= base + n)
    ensures Block(nets, is4, base, Keys(nets, base, n))
  {
    forall r | base < r <= base + n ensures Route(nets, r).prefix.key == Keys(nets, base, n)[r - 1 - base] {
      var i := r - 1 - base;
      assert Keys(nets, base, n)[i] == nets[base + i].prefix.key;
    }
  }

  // The arrays after the first i routes.
  ghost predicate Filled<V>(nets: seq<Network>, catalog: map<Network, V>, count4: nat, i: nat, key4: seq<nat>,
                            hi: seq<nat>, lo: seq<nat>, bits: seq<nat>, values: seq<V>)
    requires i <= |nets| && count4 <= |nets|
  {
    && key4 == Keys(nets, 0, if i <= count4 then i else count4)
    && PairsOf(Pairs(hi, lo), Keys(nets, count4, if i <= count4 then 0 else i - count4)) && |hi| == |lo|
    && |bits| == |values| == i + 1
    && (forall r :: 0 < r <= i ==> bits[r] == Route(nets, r).prefix.len)
    && (forall r :: 0 < r <= i ==> Route(nets, r) in catalog && values[r] == catalog[Route(nets, r)])
  }

  lemma FilledStep<V>(nets: seq<Network>, catalog: map<Network, V>, count4: nat, i: nat, key4: seq<nat>,
                      hi: seq<nat>, lo: seq<nat>, bits: seq<nat>, values: seq<V>)
    requires Catalogue(nets) && i < |nets| && count4 <= |nets| && (nets[i].is4 <==> i < count4) && nets[i] in catalog
    requires Filled(nets, catalog, count4, i, key4, hi, lo, bits, values)
    ensures var key := nets[i].prefix.key;
      if nets[i].is4 then
        Filled(nets, catalog, count4, i + 1, key4 + [key], hi, lo, bits + [nets[i].prefix.len], values + [catalog[nets[i]]])
      else
        Filled(nets, catalog, count4, i + 1, key4, hi + [High(key)], lo + [Low(key)], bits + [nets[i].prefix.len],
               values + [catalog[nets[i]]])
  {
    hide Catalogue, Keys, PairsOf, Filled;
    if nets[i].is4 {
      FilledFirst(nets, catalog, count4, i, key4, hi, lo, bits, values);
    } else {
      FilledSecond(nets, catalog, count4, i, key4, hi, lo, bits, values);
    }
  }

  lemma FilledFirst<V>(nets: seq<Network>, catalog: map<Network, V>, count4: nat, i: nat, key4: seq<nat>,
                       hi: seq<nat>, lo: seq<nat>, bits: seq<nat>, values: seq<V>)
    requires i < count4 <= |nets| && nets[i] in catalog
    requires Filled(nets, catalog, count4, i, key4, hi, lo, bits, values)
    ensures Filled(nets, catalog, count4, i + 1, key4 + [nets[i].prefix.key], hi, lo, bits + [nets[i].prefix.len],
                   values + [catalog[nets[i]]])
  {
    hide Keys, PairsOf;
    KeysStep(nets, 0, i);
    assert Route(nets, i + 1) == nets[i];
  }

  lemma FilledSecond<V>(nets: seq<Network>, catalog: map<Network, V>, count4: nat, i: nat, key4: seq<nat>,
                        hi: seq<nat>, lo: seq<nat>, bits: seq<nat>, values: seq<V>)
    requires Catalogue(nets) && count4 <= i < |nets| && !nets[i].is4 && nets[i] in catalog
    requires Filled(nets, catalog, count4, i, key4, hi, lo, bits, values)
    ensures Filled(nets, catalog, count4, i + 1, key4, hi + [High(nets[i].prefix.key)], lo + [Low(nets[i].prefix.key)],
                   bits + [nets[i].prefix.len], values + [catalog[nets[i]]])
  {
    hide Catalogue, Keys, PairsOf;
    KeysStep(nets, count4, i - count4);
    PairStep(nets, hi, lo, Keys(nets, count4, i - count4), i);
    assert Route(nets, i + 1) == nets[i];
  }

  // Drops the open routes that do not contain route n + 1, whose parent is then the top one.
  method Nest(nets: seq<Network>, open: seq<nat>, n: nat, parent: seq<nat>)
    returns (stack: seq<nat>, parent': seq<nat>)
    requires Catalogue(nets) && n < |nets| && Parents(nets, parent, n) && Open(nets, open, n)
    ensures Parents(nets, parent', n + 1) && Open(nets, stack, n + 1)
  {
    hide Catalogue, Holds, ParentIs, Parents, Open;
    stack := open;
    PopNone(nets, stack, n);
    while |stack| > 0 && !Holds(nets, stack[|stack| - 1], n + 1)
      invariant |stack| <= |open| && stack == open[..|stack|] && Popped(nets, open, |stack|, n)
    {
      stack := stack[..|stack| - 1];
    }
    ParentFound(nets, open, |stack|, n, parent, stack);
    parent' := parent + [Top(stack, |stack|)];
    stack := stack + [n + 1];
  }

  // One pass over the sorted catalogue fills every array; the stack holds the open ancestors.
  method Fill<V>(nets: seq<Network>, catalog: map<Network, V>, count4: nat, zero: V)
    returns (key4: seq<nat>, hi: seq<nat>, lo: seq<nat>, bits: seq<nat>, parent: seq<nat>, values: seq<V>)
    requires Catalogue(nets) && count4 <= |nets| && forall r :: 0 < r <= |nets| ==> (Route(nets, r).is4 <==> r <= count4)
    requires forall n :: n in nets <==> n in catalog
    ensures key4 == Keys(nets, 0, count4) && PairsOf(Pairs(hi, lo), Keys(nets, count4, |nets| - count4))
    ensures Parents(nets, parent, |nets|) && Lengths(nets, bits) && Holding(nets, values, catalog)
  {
    key4, hi, lo := [], [], [];
    bits, parent, values := [0], [0], [zero];
    var stack: seq<nat> := [];
    assert Filled(nets, catalog, count4, 0, key4, hi, lo, bits, values);
    hide Catalogue, Holds, ParentIs, Keys, PairsOf, Parents, Open, Filled;
    NothingOpen(nets);
    for i := 0 to |nets|
      invariant Parents(nets, parent, i) && Open(nets, stack, i)
      invariant Filled(nets, catalog, count4, i, key4, hi, lo, bits, values)
    {
      stack, parent := Nest(nets, stack, i, parent);
      assert Route(nets, i + 1) == nets[i] && nets[i] in catalog;
      FilledStep(nets, catalog, count4, i, key4, hi, lo, bits, values);
      bits := bits + [nets[i].prefix.len];
      values := values + [catalog[nets[i]]];
      if nets[i].is4 {
        key4 := key4 + [nets[i].prefix.key];
      } else {
        hi := hi + [High(nets[i].prefix.key)];
        lo := lo + [Low(nets[i].prefix.key)];
      }
    }
    AllFilled(nets, catalog, count4, key4, hi, lo, bits, values);
  }

  lemma AllFilled<V>(nets: seq<Network>, catalog: map<Network, V>, count4: nat, key4: seq<nat>, hi: seq<nat>,
                     lo: seq<nat>, bits: seq<nat>, values: seq<V>)
    requires count4 <= |nets| && Filled(nets, catalog, count4, |nets|, key4, hi, lo, bits, values)
    requires forall n :: n in nets <==> n in catalog
    ensures key4 == Keys(nets, 0, count4) && PairsOf(Pairs(hi, lo), Keys(nets, count4, |nets| - count4))
    ensures Lengths(nets, bits) && Holding(nets, values, catalog)
  {
  }

  lemma NothingOpen(nets: seq<Network>)
    ensures Parents(nets, [0], 0) && Open(nets, [], 0)
  {
  }

  lemma PopNone(nets: seq<Network>, stack: seq<nat>, n: nat)
    requires Open(nets, stack, n) && n < |nets|
    ensures Popped(nets, stack, |stack|, n) && stack[..|stack|] == stack
  {
  }

  lemma ParentFound(nets: seq<Network>, open: seq<nat>, k: nat, n: nat, parent: seq<nat>, stack: seq<nat>)
    requires Catalogue(nets) && Open(nets, open, n) && Popped(nets, open, k, n) && Parents(nets, parent, n)
    requires stack == open[..k] && (k > 0 ==> Holds(nets, stack[k - 1], n + 1))
    ensures Parents(nets, parent + [Top(stack, k)], n + 1) && Open(nets, stack + [n + 1], n + 1)
  {
    hide Catalogue, Holds;
    PoppedParent(nets, open, k, n);
    PushedSpans(nets, open, k, n, stack + [n + 1]);
    PushedFinished(nets, open, k, n, stack + [n + 1]);
    hide ParentIs, Spanning, Finished;
  }

  lemma KeysStep(nets: seq<Network>, base: nat, n: nat)
    requires base + n < |nets|
    ensures Keys(nets, base, n + 1) == Keys(nets, base, n) + [nets[base + n].prefix.key]
  {
  }

  lemma PairStep(nets: seq<Network>, hi: seq<nat>, lo: seq<nat>, keys: seq<nat>, i: nat)
    requires Catalogue(nets) && PairsOf(Pairs(hi, lo), keys) && |hi| == |lo| && i < |nets| && !nets[i].is4
    ensures var key := nets[i].prefix.key;
            PairsOf(Pairs(hi + [High(key)], lo + [Low(key)]), keys + [key])
  {
    var key := nets[i].prefix.key;
    RoutesOrdered(nets, i + 1, i + 1);
    WideParts(key);
    var s, t, more := Pairs(hi, lo), Pairs(hi + [High(key)], lo + [Low(key)]), keys + [key];
    hide Catalogue;
    forall j | 0 <= j < |more| ensures PairAt(t, more, j) {
      assert j < |keys| ==> PairAt(s, keys, j);
    }
  }

  method FrontOf(keys: seq<nat>, slots: seq<nat>, shift: nat) returns (front: seq<nat>)
    requires |slots| == |keys| && forall i :: 0 <= i < |keys| ==> slots[i] == Shr(keys[i], shift) < SLOTS
    requires forall i, j :: 0 <= i < j < |keys| ==> keys[i] <= keys[j]
    ensures FrontOk(keys, shift, front)
  {
    hide Shr, Below;
    var counts := BuildFront(slots);
    front := counts[..];
    forall b | 0 <= b <= SLOTS ensures IsOff(keys, shift, b, front[b]) {
      FrontIsOff(keys, shift, slots, b);
    }
  }

  lemma BlockAscends(nets: seq<Network>, is4: bool, base: nat, keys: seq<nat>)
    requires Catalogue(nets) && Block(nets, is4, base, keys)
    ensures forall i, j :: 0 <= i < j < |keys| ==> keys[i] <= keys[j]
    ensures forall i :: 0 <= i < |keys| ==> keys[i] < Pow2(FamilyWidth(is4))
  {
    forall i, j | 0 <= i < j < |keys| ensures keys[i] <= keys[j] {
      KeysAscend(nets, is4, base, keys, i, j);
    }
    forall i | 0 <= i < |keys| ensures keys[i] < Pow2(FamilyWidth(is4)) {
      var r := base + i + 1;
      RoutesOrdered(nets, r, r);
      assert Route(nets, r).prefix.key == keys[r - 1 - base];
    }
  }

  // Refuses a bad prefix; otherwise the table indexes the last value of every normalised prefix.
  method New<V>(entries: seq<Entry<V>>, zero: V)
    returns (t: Option<Table<V>>, ghost stored: map<Network, V>)
    requires Sound(entries)
    ensures t.Some? <==> forall e <- entries :: Normalize(e.prefix).Some?
    ensures t.Some? ==> Indexes(t.value, stored)
    ensures t.Some? ==>
      forall i | 0 <= i < |entries|
                 && (forall j :: i < j < |entries| ==> Normalize(entries[j].prefix) != Normalize(entries[i].prefix)) ::
        var n := Normalize(entries[i].prefix).value; n in stored && stored[n] == entries[i].value
    ensures t.Some? ==> forall n <- stored :: exists i :: 0 <= i < |entries| && Normalize(entries[i].prefix) == Some(n)
  {
    var catalog: map<Network, V> := map[];
    stored := map[];
    hide Normalize;
    for i := 0 to |entries|
      invariant forall e <- entries[..i] :: Normalize(e.prefix).Some?
      invariant catalog == CatalogOf(entries[..i], Normalize)
    {
      assert entries[..i + 1][..i] == entries[..i];
      var n := Normalize(entries[i].prefix);
      if n.None? {
        assert entries[i] in entries;
        t := None;
        return;
      }
      catalog := catalog[n.value := entries[i].value];
    }
    assert entries[..|entries|] == entries;
    CatalogValid(entries);
    CatalogMeans(entries, Normalize);
    var listed := Elements(catalog.Keys);
    NoRepeats(listed, catalog.Keys);
    var ordered := Sort(listed, NetKey);
    SortedIsCatalogue(listed, ordered);
    var table := Compile(ordered, catalog, zero);
    t, stored := Some(table), catalog;
  }

  method Compile<V>(ordered: seq<Network>, catalog: map<Network, V>, zero: V) returns (t: Table<V>)
    requires Catalogue(ordered) && forall n :: n in ordered <==> n in catalog
    ensures Indexes(t, catalog)
  {
    var count4 := CountIPv4(ordered);
    hide Catalogue, Parents, Lengths, Holding, Pow2, Shr, Block, PairAt, Keys;
    var key4, hi, lo, bits, parent, values := Fill(ordered, catalog, count4, zero);
    ghost var keys6 := Keys(ordered, count4, |ordered| - count4);
    KeysAreBlock(ordered, true, 0, count4);
    KeysAreBlock(ordered, false, count4, |ordered| - count4);
    BlockAscends(ordered, true, 0, key4);
    BlockAscends(ordered, false, count4, keys6);
    var slots4 := Slots4(key4);
    var slots6 := Slots6(hi, lo, keys6);
    var front4 := FrontOf(key4, slots4, 16);
    var front6 := FrontWords(slots6, keys6);
    t := Table(front4, front6, key4, Pairs(hi, lo), bits, parent, values, count4);
    assert Indexed(ordered, t, keys6) && Holding(ordered, t.values, catalog);
  }

  method Slots4(key4: seq<nat>) returns (slots: seq<nat>)
    requires forall i :: 0 <= i < |key4| ==> key4[i] < Pow2(32)
    ensures |slots| == |key4| && forall i :: 0 <= i < |key4| ==> slots[i] == Shr(key4[i], 16) < SLOTS
  {
    slots := seq(|key4|, i requires 0 <= i < |key4| => Shr(key4[i], 16));
    forall i | 0 <= i < |key4| ensures Shr(key4[i], 16) < SLOTS {
      KeyInSlots(32, 16, key4[i]);
    }
  }

  // The top sixteen bits of a high word are those of the address.
  method Slots6(hi: seq<nat>, ghost lo: seq<nat>, ghost keys6: seq<nat>) returns (slots: seq<nat>)
    requires PairsOf(Pairs(hi, lo), keys6) && forall i :: 0 <= i < |keys6| ==> keys6[i] < Pow2(128)
    ensures |slots| == |keys6| && forall i :: 0 <= i < |keys6| ==> slots[i] == Shr(keys6[i], 112) < SLOTS
  {
    slots := seq(|hi|, i requires 0 <= i < |hi| => Shr(hi[i], 48));
    hide Shr, Pow2, Wide;
    forall i | 0 <= i < |keys6| ensures slots[i] == Shr(keys6[i], 112) < SLOTS {
      assert PairAt(Pairs(hi, lo), keys6, i);
      KeyInSlots(128, 112, keys6[i]);
      ShrHigh(hi[i], LowAt(Pairs(hi, lo), i), 48);
    }
  }

  method FrontWords(slots: seq<nat>, ghost keys6: seq<nat>) returns (front: seq<nat>)
    requires |slots| == |keys6| && forall i :: 0 <= i < |keys6| ==> slots[i] == Shr(keys6[i], 112) < SLOTS
    requires forall i, j :: 0 <= i < j < |keys6| ==> keys6[i] <= keys6[j]
    ensures FrontOk(keys6, 112, front)
  {
    hide Shr, Below;
    var counts := BuildFront(slots);
    front := counts[..];
    forall b | 0 <= b <= SLOTS ensures IsOff(keys6, 112, b, front[b]) {
      FrontIsOff(keys6, 112, slots, b);
    }
  }

  // ---------------------------------------------------------------- the promises together

  // The route found for an address holds the value of the longest prefix covering it, and none is found
  // exactly when no prefix covers it.
  lemma MatchIsLongest<V>(nets: seq<Network>, values: seq<V>, catalog: map<Network, V>, is4: bool, a: nat, route: nat)
    requires Catalogue(nets) && Holding(nets, values, catalog) && LastContaining(nets, is4, a, route)
    ensures route == 0 <==> forall p <- Family(catalog, is4).Keys :: !Covers(FamilyWidth(is4), p, a)
    ensures route > 0 ==> route < |values| && var n := Route(nets, route);
      n in catalog && n.is4 == is4 && values[route] == catalog[n]
      && Longest(FamilyWidth(is4), Family(catalog, is4).Keys, a, n.prefix)
  {
    LastIsLongest(nets, is4, a, route);
    var w := FamilyWidth(is4);
    hide Catalogue, Covers, FamilyWidth;
    forall p | p in Family(catalog, is4).Keys ensures Covers(w, p, a) ==> route > 0 && p.len <= Route(nets, route).prefix.len {
      FamilyHas(catalog, is4, p);
      assert Network(is4, p) in nets;
    }
    if route > 0 {
      var n := Route(nets, route);
      assert RouteContains(nets, route, is4, a);
      FamilyHas(catalog, is4, n.prefix);
    }
  }
}
