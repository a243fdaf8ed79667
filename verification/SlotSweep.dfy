// slotlpm's compiler front end: a stack sweep that turns nested prefix ranges into an ascending,
// run-collapsed step function.  Ranges are closed; id zero means nothing covers.
module SlotSweep {
  import opened Bits
  import opened Prefixes
  import opened Sorting

  datatype Route = Route(first: nat, last: nat, id: nat)

  // The winner of every address from bound up to the next step.
  datatype Step = Step(bound: nat, id: nat)

  function RouteOf(w: nat, p: Prefix, id: nat): Route
    requires p.len <= w
  {
    Route(p.key, Last(w, p), id)
  }

  // The routes are the ranges of a table with distinct non-zero ids, each once.
  ghost predicate Ranges(w: nat, m: map<Prefix, nat>, routes: seq<Route>) {
    && AllValid(w, m.Keys)
    && (forall p <- m :: m[p] > 0 && RouteOf(w, p, m[p]) in routes)
    && (forall p, q :: p in m && q in m && m[p] == m[q] ==> p == q)
    && (forall r <- routes :: IsRange(w, m, r))
    && (forall i, j :: 0 <= i < j < |routes| ==> routes[i] != routes[j])
  }

  ghost predicate IsRange(w: nat, m: map<Prefix, nat>, r: Route) {
    exists p <- m :: p.len <= w && RouteOf(w, p, m[p]) == r
  }

  // ---------------------------------------------------------------- what the steps mean

  // What the step function gives an address; zero below its first step.
  function StepAt(steps: seq<Step>, a: nat): nat {
    if |steps| == 0 then 0
    else if steps[|steps| - 1].bound <= a then steps[|steps| - 1].id
    else StepAt(steps[..|steps| - 1], a)
  }

  ghost predicate Ascending(steps: seq<Step>) {
    forall i, j :: 0 <= i < j < |steps| ==> steps[i].bound < steps[j].bound
  }

  ghost predicate Collapsed(steps: seq<Step>) {
    forall i :: 0 < i < |steps| ==> steps[i - 1].id != steps[i].id
  }

  // The id of the last route covering a.
  function Win(routes: seq<Route>, a: nat): nat {
    if |routes| == 0 then 0
    else
      var r := routes[|routes| - 1];
      if r.first <= a <= r.last then r.id else Win(routes[..|routes| - 1], a)
  }

  // ---------------------------------------------------------------- the swept order

  // The order the sweep needs: by first address, of two ranges with the same one the larger before
  // the smaller, and no two overlapping without one holding the other.
  ghost predicate Swept(w: nat, rs: seq<Route>) {
    && (forall i :: 0 <= i < |rs| ==> rs[i].first <= rs[i].last < Pow2(w) && rs[i].id > 0)
    && (forall i, j :: 0 <= i < j < |rs| ==> rs[i].first <= rs[j].first)
    && (forall i, j :: 0 <= i < j < |rs| && rs[j].first <= rs[i].last ==> rs[j].last <= rs[i].last)
    && (forall i, j :: 0 <= i < |rs| && 0 <= j < |rs| && i != j ==> rs[i].id != rs[j].id)
  }

  function SweepKey(r: Route): Key {
    var last: int := r.last;
    (r.first, -last)
  }

  // Two ranges of the table with a common address: the one starting first, or the wider of two
  // starting together, contains the other.
  lemma RangesNest(w: nat, m: map<Prefix, nat>, r: Route, s: Route)
    requires AllValid(w, m.Keys) && IsRange(w, m, r) && IsRange(w, m, s)
    requires r.first <= s.first <= r.last && (r.first < s.first || s.last <= r.last)
    ensures s.last <= r.last
  {
    var p :| p in m && p.len <= w && RouteOf(w, p, m[p]) == r;
    var q :| q in m && q.len <= w && RouteOf(w, q, m[q]) == s;
    assert Valid(w, p) && Valid(w, q);
    CoversIsRange(w, p, q.key);
    SelfCovers(w, q);
    ValidFits(w, q);
    CoversIsRange(w, q, Last(w, q));
    if p.len <= q.len {
      Nested(w, p, q, q.key, Last(w, q));
      CoversIsRange(w, p, Last(w, q));
    } else {
      ValidFits(w, p);
      SelfCovers(w, p);
      Nested(w, q, p, q.key, p.key);
      CoversIsRange(w, q, p.key);
    }
  }

  lemma RangeFits(w: nat, m: map<Prefix, nat>, r: Route) returns (p: Prefix)
    requires AllValid(w, m.Keys) && IsRange(w, m, r)
    ensures p in m && p.len <= w && r == RouteOf(w, p, m[p]) && r.first <= r.last < Pow2(w)
  {
    p :| p in m && p.len <= w && RouteOf(w, p, m[p]) == r;
    ValidFits(w, p);
  }

  lemma SortedIsSwept(w: nat, m: map<Prefix, nat>, routes: seq<Route>, rs: seq<Route>)
    requires Ranges(w, m, routes) && multiset(rs) == multiset(routes) && Sorted(rs, SweepKey)
    ensures Swept(w, rs)
  {
    SameRoutes(w, m, routes, rs);
    forall i | 0 <= i < |rs| ensures rs[i].first <= rs[i].last < Pow2(w) && rs[i].id > 0 {
      var p := RangeFits(w, m, rs[i]);
    }
    forall i, j | 0 <= i < |rs| && 0 <= j < |rs| && i != j ensures rs[i].id != rs[j].id {
      var p := RangeFits(w, m, rs[i]);
      var q := RangeFits(w, m, rs[j]);
      assert rs[i] != rs[j];
    }
    forall i, j | 0 <= i < j < |rs|
      ensures rs[i].first <= rs[j].first
      ensures rs[j].first <= rs[i].last ==> rs[j].last <= rs[i].last
    {
      assert !KeyLess(SweepKey(rs[j]), SweepKey(rs[i]));
      if rs[j].first <= rs[i].last {
        RangesNest(w, m, rs[i], rs[j]);
      }
    }
  }

  lemma SameRoutes(w: nat, m: map<Prefix, nat>, routes: seq<Route>, rs: seq<Route>)
    requires Ranges(w, m, routes) && multiset(rs) == multiset(routes)
    ensures forall i :: 0 <= i < |rs| ==> IsRange(w, m, rs[i])
    ensures forall i, j :: 0 <= i < |rs| && 0 <= j < |rs| && i != j ==> rs[i] != rs[j]
    ensures forall p <- m :: p.len <= w && RouteOf(w, p, m[p]) in rs
    ensures |rs| == |routes|
  {
    hide IsRange;
    assert |rs| == |multiset(rs)| == |multiset(routes)| == |routes|;
    SameElements(rs, routes);
    SameApart(rs, routes);
  }

  // The winner of the swept order is the longest match.
  lemma WinIsAnswer(w: nat, m: map<Prefix, nat>, routes: seq<Route>, rs: seq<Route>, a: nat)
    requires Ranges(w, m, routes) && multiset(rs) == multiset(routes) && Swept(w, rs)
    ensures Answers(w, m, a, Win(rs, a))
  {
    hide Answers, Covers, Valid, Pow2, Ranges, Swept;
    if p :| p in m.Keys && Covers(w, p, a) {
      WinIsLongest(w, m, routes, rs, a, p);
    } else {
      WinIsNone(w, m, routes, rs, a);
    }
  }

  lemma WinIsLongest(w: nat, m: map<Prefix, nat>, routes: seq<Route>, rs: seq<Route>, a: nat, p: Prefix)
    requires Ranges(w, m, routes) && multiset(rs) == multiset(routes) && Swept(w, rs)
    requires p in m.Keys && Covers(w, p, a)
    ensures Answers(w, m, a, Win(rs, a))
  {
    hide Covers, Pow2;
    SameRoutes(w, m, routes, rs);
    CoversIsRange(w, p, a);
    var i :| 0 <= i < |rs| && rs[i] == RouteOf(w, p, m[p]);
    var k := WinIndex(rs, a, i);
    var q := RangeFits(w, m, rs[k]);
    CoversIsRange(w, q, a);
    forall t <- m.Keys | Covers(w, t, a) ensures t.len <= q.len {
      CoversIsRange(w, t, a);
      var j :| 0 <= j < |rs| && rs[j] == RouteOf(w, t, m[t]);
      if t.len > q.len {
        LongerInside(w, m, rs, k, j, q, t, a);
      }
    }
    assert Longest(w, m.Keys, a, q);
  }

  lemma WinIsNone(w: nat, m: map<Prefix, nat>, routes: seq<Route>, rs: seq<Route>, a: nat)
    requires Ranges(w, m, routes) && multiset(rs) == multiset(routes) && Swept(w, rs)
    requires forall p <- m.Keys :: !Covers(w, p, a)
    ensures Answers(w, m, a, Win(rs, a))
  {
    SameRoutes(w, m, routes, rs);
    hide Covers, Pow2;
    forall i | 0 <= i < |rs| ensures !(rs[i].first <= a <= rs[i].last) {
      var p := RangeFits(w, m, rs[i]);
      CoversIsRange(w, p, a);
    }
    NoWin(rs, a);
  }

  // A longer covering range cannot come before the winner.
  lemma LongerInside(w: nat, m: map<Prefix, nat>, rs: seq<Route>, k: nat, j: nat, q: Prefix, t: Prefix, a: nat)
    requires AllValid(w, m.Keys) && Swept(w, rs) && k < |rs| && j < |rs| && q in m && t in m && t.len <= w && q.len <= w
    requires rs[k] == RouteOf(w, q, m[q]) && rs[j] == RouteOf(w, t, m[t])
    requires Covers(w, q, a) && Covers(w, t, a) && (forall i :: k < i < |rs| ==> !(rs[i].first <= a <= rs[i].last))
    ensures t.len <= q.len
  {
    CoversIsRange(w, t, a);
    CoversIsRange(w, q, a);
    if j < k {
      assert t.key <= q.key && Last(w, q) <= Last(w, t);
    }
    if t.len > q.len {
      SpanShrinks(w, q.len, t.len);
      SelfCovers(w, t);
      Nested(w, q, t, a, t.key);
      CoversIsRange(w, q, t.key);
    }
  }

  lemma SpanShrinks(w: nat, short: nat, long: nat)
    requires short < long <= w
    ensures Span(w, long) < Span(w, short)
  {
    Pow2Mono(w - long, w - short - 1);
  }

  lemma {:induction false} WinIndex(rs: seq<Route>, a: nat, i: nat) returns (k: nat)
    requires i < |rs| && rs[i].first <= a <= rs[i].last
    ensures k < |rs| && rs[k].first <= a <= rs[k].last && Win(rs, a) == rs[k].id
    ensures forall j :: k < j < |rs| ==> !(rs[j].first <= a <= rs[j].last)
  {
    var r := rs[|rs| - 1];
    if r.first <= a <= r.last {
      k := |rs| - 1;
    } else {
      k := WinIndex(rs[..|rs| - 1], a, i);
    }
  }

  lemma {:induction false} NoWin(rs: seq<Route>, a: nat)
    requires forall i :: 0 <= i < |rs| ==> !(rs[i].first <= a <= rs[i].last)
    ensures Win(rs, a) == 0
  {
    if |rs| > 0 {
      NoWin(rs[..|rs| - 1], a);
    }
  }

  // ---------------------------------------------------------------- emitting a step

  function Emit(steps: seq<Step>, bound: nat, id: nat): seq<Step> {
    if |steps| > 0 then
      if steps[|steps| - 1].bound == bound then steps[..|steps| - 1] + [Step(bound, id)]
      else if steps[|steps| - 1].id == id then steps
      else steps + [Step(bound, id)]
    else if id == 0 then steps
    else steps + [Step(bound, id)]
  }

  // Emitting at or past every bound replaces the function from there on and nothing before.
  lemma EmitMeans(steps: seq<Step>, bound: nat, id: nat, a: nat)
    requires Ascending(steps) && (|steps| > 0 ==> steps[|steps| - 1].bound <= bound)
    ensures StepAt(Emit(steps, bound, id), a) == if a >= bound then id else StepAt(steps, a)
    ensures Ascending(Emit(steps, bound, id))
  {
    var n := |steps|;
    if n > 0 && steps[n - 1].bound == bound {
      assert (steps[..n - 1] + [Step(bound, id)])[..n] == steps[..n - 1] + [Step(bound, id)];
      assert (steps[..n - 1] + [Step(bound, id)])[..n - 1] == steps[..n - 1];
    } else {
      assert (steps + [Step(bound, id)])[..n] == steps;
    }
  }

  // ---------------------------------------------------------------- the sweep's state

  // at lists the routes still open at the sweep position, outermost first; every other route
  // entered so far ended before it.
  ghost predicate Stacked(rs: seq<Route>, i: nat, pos: nat, at: seq<nat>) {
    && i <= |rs|
    && (forall k :: 0 <= k < |at| ==> at[k] < i && rs[at[k]].first <= pos <= rs[at[k]].last + 1)
    && (forall k, l :: 0 <= k < l < |at| ==> at[k] < at[l] && rs[at[l]].last <= rs[at[k]].last)
    && (forall j :: 0 <= j < i ==> j in at || rs[j].last < pos)
  }

  function TopId(rs: seq<Route>, at: seq<nat>): nat
    requires forall k :: 0 <= k < |at| ==> at[k] < |rs|
  {
    if |at| == 0 then 0 else rs[at[|at| - 1]].id
  }

  ghost predicate Settled(w: nat, rs: seq<Route>, pos: nat, steps: seq<Step>) {
    forall a: nat | a < pos && a < Pow2(w) :: StepAt(steps, a) == Win(rs, a)
  }

  ghost predicate Onward(w: nat, pos: nat, id: nat, steps: seq<Step>) {
    forall a: nat | pos <= a < Pow2(w) :: StepAt(steps, a) == id
  }

  // No route still to come has been emitted.
  ghost predicate Unused(rs: seq<Route>, i: nat, steps: seq<Step>) {
    forall t, j :: 0 <= t < |steps| && i <= j < |rs| ==> steps[t].id != rs[j].id
  }

  // Steps are final below the sweep position and carry the innermost open route from there on.
  ghost predicate Emitted(w: nat, rs: seq<Route>, i: nat, pos: nat, at: seq<nat>, steps: seq<Step>)
    requires Stacked(rs, i, pos, at)
  {
    && Ascending(steps) && Collapsed(steps) && (|steps| > 0 ==> steps[|steps| - 1].bound <= pos)
    && Settled(w, rs[..i], pos, steps) && Onward(w, pos, TopId(rs, at), steps) && Unused(rs, i, steps)
  }

  // Where the innermost open route has just ended the step before the last bound belongs to a
  // closed route, so overwriting that bound cannot repeat its id.
  ghost predicate Closing(w: nat, rs: seq<Route>, i: nat, pos: nat, at: seq<nat>, steps: seq<Step>)
    requires Stacked(rs, i, pos, at)
  {
    |at| > 0 && rs[at[|at| - 1]].last < pos < Pow2(w) ==>
      && |steps| >= 2 && steps[|steps| - 1].bound == pos && steps[|steps| - 2].id != 0
      && forall k :: 0 <= k < |at| ==> steps[|steps| - 2].id != rs[at[k]].id
  }

  // The innermost open route wins wherever it still covers.
  lemma OpenWins(w: nat, rs: seq<Route>, i: nat, pos: nat, at: seq<nat>, a: nat)
    requires Swept(w, rs) && Stacked(rs, i, pos, at) && pos <= a
    requires |at| > 0 ==> a <= rs[at[|at| - 1]].last
    ensures Win(rs[..i], a) == TopId(rs, at)
  {
    if |at| == 0 {
      NoWin(rs[..i], a);
    } else {
      var top := at[|at| - 1];
      assert rs[..i][top] == rs[top];
      var k := WinIndex(rs[..i], a, top);
      assert k in at ==> k <= top;
    }
  }

  // Until the innermost open route ends it wins.
  lemma StillWins(w: nat, rs: seq<Route>, i: nat, pos: nat, at: seq<nat>, next: nat)
    requires Swept(w, rs) && Stacked(rs, i, pos, at) && |at| > 0 && next == rs[at[|at| - 1]].last + 1
    ensures pos <= next <= Pow2(w)
    ensures forall a: nat :: pos <= a < next ==> Win(rs[..i], a) == TopId(rs, at)
  {
    forall a: nat | pos <= a < next ensures Win(rs[..i], a) == TopId(rs, at) {
      OpenWins(w, rs, i, pos, at, a);
    }
  }

  // A range ending at the top address closes without a step.
  lemma PoppedTop(w: nat, rs: seq<Route>, i: nat, pos: nat, at: seq<nat>, steps: seq<Step>, next: nat, outer: seq<nat>)
    requires Swept(w, rs) && Stacked(rs, i, pos, at) && |at| > 0 && Stacked(rs, i, next, outer)
    requires Emitted(w, rs, i, pos, at, steps) && next == rs[at[|at| - 1]].last + 1 == Pow2(w)
    ensures Emitted(w, rs, i, next, outer, steps) && Closing(w, rs, i, next, outer, steps)
  {
    StillWins(w, rs, i, pos, at, next);
    hide Win, StepAt, TopId, Ascending, Collapsed, Stacked, Swept, Unused;
  }

  lemma PoppedStack(rs: seq<Route>, i: nat, pos: nat, at: seq<nat>)
    requires Stacked(rs, i, pos, at) && |at| > 0
    ensures Stacked(rs, i, rs[at[|at| - 1]].last + 1, at[..|at| - 1])
  {
    var top, at' := at[|at| - 1], at[..|at| - 1];
    assert at == at' + [top];
    forall j | 0 <= j < i ensures j in at' || rs[j].last < rs[top].last + 1 {
      assert j in at ==> j in at' || j == top;
    }
  }

  // Closing the innermost open route below the top address.
  lemma PoppedSteps(w: nat, rs: seq<Route>, i: nat, pos: nat, at: seq<nat>, steps: seq<Step>,
                    next: nat, outer: seq<nat>, id: nat, steps': seq<Step>)
    requires Swept(w, rs) && Stacked(rs, i, pos, at) && |at| > 0 && Stacked(rs, i, next, outer)
    requires Emitted(w, rs, i, pos, at, steps) && Closing(w, rs, i, pos, at, steps)
    requires next == rs[at[|at| - 1]].last + 1 < Pow2(w) && outer == at[..|at| - 1] && id == TopId(rs, outer)
    requires steps' == Emit(steps, next, id)
    ensures Emitted(w, rs, i, next, outer, steps')
    ensures Closing(w, rs, i, next, outer, steps')
  {
    StillWins(w, rs, i, pos, at, next);
    EmitSettles(w, rs[..i], pos, TopId(rs, at), steps, next, id);
    PoppedIds(rs, i, pos, at, steps, next);
    hide StepAt, Win, Swept, Ascending, Settled, Onward, Unused;
    assert pos < next ==> |steps| > 0 && steps[|steps| - 1].id == TopId(rs, at) by {
      if pos < next { TopEmitted(w, rs, i, pos, at, steps); }
    }
    EmitCollapses(steps, next, id);
    EmitUnused(rs, i, steps, next, id);
    hide Stacked, Emitted, Collapsed;
    EmitClosing(w, rs, i, pos, at, steps, next, outer);
  }

  // At an open address the last step carries the innermost open route.
  lemma TopEmitted(w: nat, rs: seq<Route>, i: nat, pos: nat, at: seq<nat>, steps: seq<Step>)
    requires Swept(w, rs) && Stacked(rs, i, pos, at) && |at| > 0 && pos < Pow2(w) && Emitted(w, rs, i, pos, at, steps)
    ensures |steps| > 0 && steps[|steps| - 1].id == TopId(rs, at)
  {
    LastStepAt(steps, pos);
    assert StepAt(steps, pos) == TopId(rs, at) > 0;
  }

  // The enclosing route's id differs from the closed one's and has been used.
  lemma PoppedIds(rs: seq<Route>, i: nat, pos: nat, at: seq<nat>, steps: seq<Step>, next: nat)
    requires Stacked(rs, i, pos, at) && |at| > 0
    requires forall a, b :: 0 <= a < |rs| && 0 <= b < |rs| && a != b ==> rs[a].id != rs[b].id
    requires forall a :: 0 <= a < |rs| ==> rs[a].id > 0
    ensures forall k :: 0 <= k < |at| - 1 ==> rs[at[k]].id != TopId(rs, at)
    ensures TopId(rs, at[..|at| - 1]) != TopId(rs, at) && TopId(rs, at) != 0
    ensures forall j :: i <= j < |rs| ==> rs[j].id != TopId(rs, at[..|at| - 1])
  {
  }

  // Emitting past the sweep position settles everything below it.
  lemma EmitSettles(w: nat, rs: seq<Route>, pos: nat, top: nat, steps: seq<Step>, next: nat, id: nat)
    requires Ascending(steps) && (|steps| > 0 ==> steps[|steps| - 1].bound <= pos) && pos <= next
    requires Settled(w, rs, pos, steps) && Onward(w, pos, top, steps)
    requires forall a: nat :: pos <= a < next && a < Pow2(w) ==> Win(rs, a) == top
    ensures Settled(w, rs, next, Emit(steps, next, id)) && Onward(w, next, id, Emit(steps, next, id))
    ensures Ascending(Emit(steps, next, id))
    ensures var n := |Emit(steps, next, id)|; n > 0 ==> Emit(steps, next, id)[n - 1].bound <= next
  {
    EmitMeans(steps, next, id, 0);
    forall a: nat ensures StepAt(Emit(steps, next, id), a) == if a >= next then id else StepAt(steps, a) {
      EmitMeans(steps, next, id, a);
    }
    hide StepAt, Win, Ascending;
  }

  lemma EmitCollapses(steps: seq<Step>, bound: nat, id: nat)
    requires Collapsed(steps)
    requires |steps| >= 2 && steps[|steps| - 1].bound == bound ==> steps[|steps| - 2].id != id
    ensures Collapsed(Emit(steps, bound, id))
  {
  }

  lemma EmitUnused(rs: seq<Route>, i: nat, steps: seq<Step>, bound: nat, id: nat)
    requires Unused(rs, i, steps) && forall j :: i <= j < |rs| ==> rs[j].id != id
    ensures Unused(rs, i, Emit(steps, bound, id))
  {
  }

  lemma EmitClosing(w: nat, rs: seq<Route>, i: nat, pos: nat, at: seq<nat>, steps: seq<Step>, next: nat, at': seq<nat>)
    requires Stacked(rs, i, pos, at) && |at| > 0 && Stacked(rs, i, next, at') && at' == at[..|at| - 1]
    requires Closing(w, rs, i, pos, at, steps) && next == rs[at[|at| - 1]].last + 1 < Pow2(w) && pos <= next
    requires pos < next ==> |steps| > 0 && steps[|steps| - 1].id == TopId(rs, at) && steps[|steps| - 1].bound <= pos
    requires forall k :: 0 <= k < |at| - 1 ==> rs[at[k]].id != TopId(rs, at)
    requires TopId(rs, at') != TopId(rs, at) && TopId(rs, at) != 0
    ensures Closing(w, rs, i, next, at', Emit(steps, next, TopId(rs, at')))
  {
    assert forall k :: 0 <= k < |at'| ==> at'[k] == at[k];
  }

  lemma LastStepAt(steps: seq<Step>, a: nat)
    requires |steps| > 0 ==> steps[|steps| - 1].bound <= a
    ensures StepAt(steps, a) == if |steps| > 0 then steps[|steps| - 1].id else 0
  {
  }

  // Entering the next route.
  lemma Pushed(w: nat, rs: seq<Route>, i: nat, pos: nat, at: seq<nat>, steps: seq<Step>)
    requires Swept(w, rs) && Stacked(rs, i, pos, at) && i < |rs| && pos <= rs[i].first
    requires |at| > 0 ==> rs[i].first <= rs[at[|at| - 1]].last
    requires Emitted(w, rs, i, pos, at, steps)
    ensures var steps', at' := Emit(steps, rs[i].first, rs[i].id), at + [i];
            && Stacked(rs, i + 1, rs[i].first, at')
            && Emitted(w, rs, i + 1, rs[i].first, at', steps') && Closing(w, rs, i + 1, rs[i].first, at', steps')
  {
    var r, at' := rs[i], at + [i];
    PushedStack(w, rs, i, pos, at);
    assert rs[..i + 1][..i] == rs[..i];
    forall a: nat | pos <= a < r.first ensures Win(rs[..i], a) == TopId(rs, at) {
      OpenWins(w, rs, i, pos, at, a);
    }
    EmitSettles(w, rs[..i], pos, TopId(rs, at), steps, r.first, r.id);
    assert Settled(w, rs[..i + 1], r.first, Emit(steps, r.first, r.id));
    assert Unused(rs, i + 1, steps);
    hide StepAt, Win, Ascending, Settled, Onward;
    assert TopId(rs, at') == r.id;
    EmitCollapses(steps, r.first, r.id);
    EmitUnused(rs, i + 1, steps, r.first, r.id);
  }

  lemma PushedStack(w: nat, rs: seq<Route>, i: nat, pos: nat, at: seq<nat>)
    requires Swept(w, rs) && Stacked(rs, i, pos, at) && i < |rs| && pos <= rs[i].first
    requires |at| > 0 ==> rs[i].first <= rs[at[|at| - 1]].last
    ensures Stacked(rs, i + 1, rs[i].first, at + [i])
  {
    var at' := at + [i];
    forall k | 0 <= k < |at| ensures rs[i].first <= rs[at[k]].last && rs[i].last <= rs[at[k]].last {
      assert k < |at| - 1 ==> rs[at[|at| - 1]].last <= rs[at[k]].last;
    }
    forall j | 0 <= j < i + 1 ensures j in at' || rs[j].last < rs[i].first {
      if j in at { assert j in at'; }
    }
  }

  // ---------------------------------------------------------------- the sweep

  // One pass over the sorted ranges with a stack of those still open; its top decides each address.
  method Sweep(w: nat, routes: seq<Route>, ghost m: map<Prefix, nat>) returns (steps: seq<Step>)
    requires Ranges(w, m, routes)
    ensures Ascending(steps) && Collapsed(steps) && |steps| <= 2 * |routes| + 1
    ensures forall a: nat | a < Pow2(w) :: Answers(w, m, a, StepAt(steps, a))
    ensures if |routes| > 0 then |steps| > 0 && steps[0].bound == 0 else steps == []
    ensures forall t :: 0 <= t < |steps| ==> steps[t].bound < Pow2(w) && (steps[t].id == 0 || steps[t].id in m.Values)
  {
    steps := [];
    var rs := Sort(routes, SweepKey);
    SortedIsSwept(w, m, routes, rs);
    SameRoutes(w, m, routes, rs);
    if |rs| > 0 {
      steps := SweepSorted(w, rs);
    }
    forall a: nat | a < Pow2(w) ensures Answers(w, m, a, StepAt(steps, a)) {
      WinIsAnswer(w, m, routes, rs, a);
    }
    forall t | 0 <= t < |steps| ensures steps[t].id == 0 || steps[t].id in m.Values {
      if i :| 0 <= i < |rs| && steps[t].id == rs[i].id {
        var p := RangeFits(w, m, rs[i]);
      }
    }
  }

  method SweepSorted(w: nat, rs: seq<Route>) returns (steps: seq<Step>)
    requires Swept(w, rs) && |rs| > 0
    ensures Ascending(steps) && Collapsed(steps) && |steps| <= 2 * |rs| + 1
    ensures forall a: nat | a < Pow2(w) :: StepAt(steps, a) == Win(rs, a)
    ensures |steps| > 0 && Shape(w, rs, steps)
  {
    steps := if rs[0].first != 0 then [Step(0, 0)] else [];
    var stack: seq<Route> := [];
    ghost var at: seq<nat>, pos: nat := [], 0;
    Started(w, rs, steps);
    hide *;
    for i := 0 to |rs|
      invariant Sweeping(w, rs, i, pos, at, stack, steps) && (i < |rs| ==> pos <= rs[i].first)
    {
      stack, steps, pos, at := Visit(w, rs, i, stack, steps, pos, at);
    }
    steps, pos := CloseAll(w, rs, stack, steps, pos, at);
    Drained(w, rs, pos, steps);
  }

  // One route of the sweep: close what ends before it, then let it win.
  method Visit(w: nat, rs: seq<Route>, i: nat, stack0: seq<Route>, steps0: seq<Step>, ghost pos0: nat, ghost at0: seq<nat>)
    returns (stack: seq<Route>, steps: seq<Step>, ghost pos: nat, ghost at: seq<nat>)
    requires Swept(w, rs) && i < |rs| && Sweeping(w, rs, i, pos0, at0, stack0, steps0) && pos0 <= rs[i].first
    ensures Sweeping(w, rs, i + 1, pos, at, stack, steps) && (i + 1 < |rs| ==> pos <= rs[i + 1].first)
  {
    hide *;
    stack, steps, pos, at := CloseBefore(w, rs, i, stack0, steps0, pos0, at0);
    var r := rs[i];
    var grown := Emit(steps, r.first, r.id);
    Enter(w, rs, i, pos, at, stack, steps, r, at + [i], stack + [r], grown);
    steps, stack := grown, stack + [r];
    pos, at := r.first, at + [i];
  }

  // Closes the ranges that end before the next one starts.
  method CloseBefore(w: nat, rs: seq<Route>, i: nat, stack0: seq<Route>, steps0: seq<Step>, ghost pos0: nat, ghost at0: seq<nat>)
    returns (stack: seq<Route>, steps: seq<Step>, ghost pos: nat, ghost at: seq<nat>)
    requires Swept(w, rs) && i < |rs| && Sweeping(w, rs, i, pos0, at0, stack0, steps0) && pos0 <= rs[i].first
    ensures Sweeping(w, rs, i, pos, at, stack, steps) && pos <= rs[i].first
    ensures |stack| > 0 ==> rs[i].first <= stack[|stack| - 1].last
  {
    RouteFits(w, rs, i);
    hide Swept, Sweeping, Emit, Outer, Pow2;
    stack, steps, pos, at := stack0, steps0, pos0, at0;
    while |stack| > 0 && stack[|stack| - 1].last < rs[i].first
      invariant Sweeping(w, rs, i, pos, at, stack, steps) && pos <= rs[i].first
      decreases |stack|
    {
      Leave(w, rs, i, pos, at, stack, steps);
      pos, at := Next(stack), at[..|at| - 1];
      steps := Emit(steps, Next(stack), Outer(stack));
      stack := stack[..|stack| - 1];
    }
  }

  // Closes every range still open; one ending at the top address has no address after it.
  method CloseAll(w: nat, rs: seq<Route>, stack0: seq<Route>, steps0: seq<Step>, ghost pos0: nat, ghost at0: seq<nat>)
    returns (steps: seq<Step>, ghost pos: nat)
    requires Swept(w, rs) && Sweeping(w, rs, |rs|, pos0, at0, stack0, steps0)
    ensures Sweeping(w, rs, |rs|, pos, [], [], steps)
  {
    hide Swept, Sweeping, Emit, Outer, Pow2;
    var stack := stack0;
    ghost var at := at0;
    steps, pos := steps0, pos0;
    while |stack| > 0
      invariant Sweeping(w, rs, |rs|, pos, at, stack, steps)
      decreases |stack|
    {
      OpenFits(w, rs, |rs|, pos, at, stack, steps);
      if stack[|stack| - 1].last != Pow2(w) - 1 {
        Leave(w, rs, |rs|, pos, at, stack, steps);
        steps := Emit(steps, Next(stack), Outer(stack));
      } else {
        LeaveTop(w, rs, |rs|, pos, at, stack, steps);
      }
      pos, at := Next(stack), at[..|at| - 1];
      stack := stack[..|stack| - 1];
    }
    SameLength(w, rs, |rs|, pos, at, stack, steps);
  }

  // Everything the sweep keeps between two routes.
  ghost predicate Sweeping(w: nat, rs: seq<Route>, i: nat, pos: nat, at: seq<nat>, stack: seq<Route>, steps: seq<Step>) {
    && Stacked(rs, i, pos, at) && Emitted(w, rs, i, pos, at, steps) && Closing(w, rs, i, pos, at, steps)
    && Mirror(rs, at, stack) && Shape(w, rs, steps)
    && (|steps| > 0 || (i == 0 && |rs| > 0 && rs[0].first == 0)) && |steps| + |at| <= 2 * i + 1
  }

  // The stack holds the open routes themselves.
  ghost predicate Mirror(rs: seq<Route>, at: seq<nat>, stack: seq<Route>) {
    |stack| == |at| && forall k :: 0 <= k < |at| ==> at[k] < |rs| && stack[k] == rs[at[k]]
  }

  lemma MirrorTop(rs: seq<Route>, at: seq<nat>, stack: seq<Route>)
    requires Mirror(rs, at, stack)
    ensures forall k :: 0 <= k < |at| ==> at[k] < |rs|
    ensures TopId(rs, at) == if |stack| > 0 then stack[|stack| - 1].id else 0
    ensures Known(rs, TopId(rs, at))
    ensures |stack| > 0 ==> |at| > 0 && stack[|stack| - 1] == rs[at[|at| - 1]]
                            && Mirror(rs, at[..|at| - 1], stack[..|stack| - 1])
  {
  }

  ghost predicate Known(rs: seq<Route>, id: nat) {
    id == 0 || exists i :: 0 <= i < |rs| && id == rs[i].id
  }

  ghost predicate Shape(w: nat, rs: seq<Route>, steps: seq<Step>) {
    && (|steps| > 0 ==> steps[0].bound == 0)
    && forall t :: 0 <= t < |steps| ==>
         steps[t].bound < Pow2(w) && Known(rs, steps[t].id)
  }

  lemma EmitShape(w: nat, rs: seq<Route>, steps: seq<Step>, bound: nat, id: nat)
    requires Shape(w, rs, steps) && bound < Pow2(w) && (|steps| > 0 || bound == 0)
    requires Known(rs, id)
    ensures Shape(w, rs, Emit(steps, bound, id)) && |Emit(steps, bound, id)| <= |steps| + 1
    ensures |steps| > 0 || id != 0 ==> |Emit(steps, bound, id)| > 0
  {
  }

  lemma MirrorPush(rs: seq<Route>, at: seq<nat>, stack: seq<Route>, i: nat)
    requires Mirror(rs, at, stack) && i < |rs|
    ensures Mirror(rs, at + [i], stack + [rs[i]]) && Known(rs, rs[i].id)
  {
  }

  // The innermost open range, the one around it, and the id the sweep falls back to.
  function Outer(stack: seq<Route>): nat
    requires |stack| > 0
  {
    if |stack| > 1 then stack[|stack| - 2].id else 0
  }

  function Next(stack: seq<Route>): nat
    requires |stack| > 0
  {
    stack[|stack| - 1].last + 1
  }

  lemma OuterIsTop(rs: seq<Route>, at: seq<nat>, stack: seq<Route>)
    requires Mirror(rs, at, stack) && |stack| > 0
    ensures |at| == |stack| && at[|at| - 1] < |rs| && Next(stack) == rs[at[|at| - 1]].last + 1
    ensures forall k :: 0 <= k < |at| ==> at[k] < |rs|
    ensures TopId(rs, at[..|at| - 1]) == Outer(stack) && Known(rs, Outer(stack))
    ensures Mirror(rs, at[..|at| - 1], stack[..|stack| - 1])
  {
    MirrorTop(rs, at[..|at| - 1], stack[..|stack| - 1]);
  }

  // Leaving the innermost open range below the top address.
  lemma Leave(w: nat, rs: seq<Route>, i: nat, pos: nat, at: seq<nat>, stack: seq<Route>, steps: seq<Step>)
    requires Swept(w, rs) && Sweeping(w, rs, i, pos, at, stack, steps) && |stack| > 0 && Next(stack) < Pow2(w)
    ensures |at| > 0
    ensures Sweeping(w, rs, i, Next(stack), at[..|at| - 1], stack[..|stack| - 1], Emit(steps, Next(stack), Outer(stack)))
  {
    OuterIsTop(rs, at, stack);
    OpenMeansSteps(w, rs, i, pos, at, stack, steps);
    var next, outer, id := Next(stack), at[..|at| - 1], Outer(stack);
    var steps' := Emit(steps, next, id);
    LeaveWith(w, rs, i, pos, at, stack, steps, next, outer, id, stack[..|stack| - 1], steps');
  }

  lemma LeaveWith(w: nat, rs: seq<Route>, i: nat, pos: nat, at: seq<nat>, stack: seq<Route>, steps: seq<Step>,
                  next: nat, outer: seq<nat>, id: nat, stack': seq<Route>, steps': seq<Step>)
    requires Swept(w, rs) && Stacked(rs, i, pos, at) && |at| > 0
    requires Emitted(w, rs, i, pos, at, steps) && Closing(w, rs, i, pos, at, steps) && Shape(w, rs, steps)
    requires next == rs[at[|at| - 1]].last + 1 < Pow2(w) && outer == at[..|at| - 1]
    requires forall k :: 0 <= k < |outer| ==> outer[k] < |rs|
    requires id == TopId(rs, outer) && Known(rs, id) && Mirror(rs, outer, stack')
    requires steps' == Emit(steps, next, id) && |steps| > 0 && |steps| + |at| <= 2 * i + 1
    ensures Sweeping(w, rs, i, next, outer, stack', steps')
  {
    PoppedStack(rs, i, pos, at);
    hide *;
    PoppedSteps(w, rs, i, pos, at, steps, next, outer, id, steps');
    EmitShape(w, rs, steps, next, id);
    Bundle(w, rs, i, next, outer, stack', steps');
  }

  // Leaving a range that ends at the top address.
  lemma LeaveTop(w: nat, rs: seq<Route>, i: nat, pos: nat, at: seq<nat>, stack: seq<Route>, steps: seq<Step>)
    requires Swept(w, rs) && Sweeping(w, rs, i, pos, at, stack, steps) && |stack| > 0 && Next(stack) == Pow2(w)
    ensures |at| > 0
    ensures Sweeping(w, rs, i, Next(stack), at[..|at| - 1], stack[..|stack| - 1], steps)
  {
    OuterIsTop(rs, at, stack);
    OpenMeansSteps(w, rs, i, pos, at, stack, steps);
    PoppedStack(rs, i, pos, at);
    PoppedTop(w, rs, i, pos, at, steps, Next(stack), at[..|at| - 1]);
    hide *;
    Bundle(w, rs, i, Next(stack), at[..|at| - 1], stack[..|stack| - 1], steps);
  }

  lemma OpenFits(w: nat, rs: seq<Route>, i: nat, pos: nat, at: seq<nat>, stack: seq<Route>, steps: seq<Step>)
    requires Swept(w, rs) && Sweeping(w, rs, i, pos, at, stack, steps) && |stack| > 0
    ensures |at| == |stack| && Next(stack) <= Pow2(w)
  {
    OuterIsTop(rs, at, stack);
  }

  lemma OpenMeansSteps(w: nat, rs: seq<Route>, i: nat, pos: nat, at: seq<nat>, stack: seq<Route>, steps: seq<Step>)
    requires Sweeping(w, rs, i, pos, at, stack, steps) && |at| > 0
    ensures |steps| > 0 && |steps| + |at| <= 2 * i + 1
  {
  }

  lemma SameLength(w: nat, rs: seq<Route>, i: nat, pos: nat, at: seq<nat>, stack: seq<Route>, steps: seq<Step>)
    requires Sweeping(w, rs, i, pos, at, stack, steps) && |stack| == 0
    ensures at == [] && stack == []
  {
  }

  lemma Bundle(w: nat, rs: seq<Route>, i: nat, pos: nat, at: seq<nat>, stack: seq<Route>, steps: seq<Step>)
    requires Stacked(rs, i, pos, at) && Emitted(w, rs, i, pos, at, steps) && Closing(w, rs, i, pos, at, steps)
    requires Mirror(rs, at, stack) && Shape(w, rs, steps) && |steps| > 0 && |steps| + |at| <= 2 * i + 1
    ensures Sweeping(w, rs, i, pos, at, stack, steps)
  {
  }

  // Entering the next range.
  lemma Enter(w: nat, rs: seq<Route>, i: nat, pos: nat, at: seq<nat>, stack: seq<Route>, steps: seq<Step>,
              r: Route, at': seq<nat>, stack': seq<Route>, steps': seq<Step>)
    requires Swept(w, rs) && Sweeping(w, rs, i, pos, at, stack, steps) && i < |rs| && pos <= rs[i].first
    requires |stack| > 0 ==> rs[i].first <= stack[|stack| - 1].last
    requires r == rs[i] && at' == at + [i] && stack' == stack + [r] && steps' == Emit(steps, r.first, r.id)
    ensures Sweeping(w, rs, i + 1, r.first, at', stack', steps')
    ensures i + 1 < |rs| ==> r.first <= rs[i + 1].first
  {
    RouteFits(w, rs, i);
    NextFirst(w, rs, i);
    MirrorTop(rs, at, stack);
    MirrorPush(rs, at, stack, i);
    Pushed(w, rs, i, pos, at, steps);
    hide *;
    EmitShape(w, rs, steps, r.first, r.id);
    Bundle(w, rs, i + 1, r.first, at', stack', steps');
  }

  lemma RouteFits(w: nat, rs: seq<Route>, i: nat)
    requires Swept(w, rs) && i < |rs|
    ensures rs[i].first <= rs[i].last < Pow2(w) && rs[i].id > 0
  {
  }

  lemma NextFirst(w: nat, rs: seq<Route>, i: nat)
    requires Swept(w, rs) && i < |rs|
    ensures i + 1 < |rs| ==> rs[i].first <= rs[i + 1].first
  {
  }

  lemma Started(w: nat, rs: seq<Route>, steps: seq<Step>)
    requires Swept(w, rs) && |rs| > 0 && steps == if rs[0].first != 0 then [Step(0, 0)] else []
    ensures Sweeping(w, rs, 0, 0, [], [], steps)
  {
  }

  // With every route closed the steps are final everywhere.
  lemma Drained(w: nat, rs: seq<Route>, pos: nat, steps: seq<Step>)
    requires Sweeping(w, rs, |rs|, pos, [], [], steps) && |rs| > 0
    ensures forall a: nat | a < Pow2(w) :: StepAt(steps, a) == Win(rs, a)
    ensures Ascending(steps) && Collapsed(steps) && Shape(w, rs, steps) && 0 < |steps| <= 2 * |rs| + 1
  {
    assert rs[..|rs|] == rs;
    forall a: nat | pos <= a < Pow2(w) ensures Win(rs, a) == 0 {
      NoWin(rs, a);
    }
    hide Win, StepAt;
  }

  // ---------------------------------------------------------------- the least steps

  // Whole step functions on a w-bit space, and two that agree everywhere.
  ghost predicate Steps(w: nat, steps: seq<Step>) {
    && Ascending(steps) && |steps| > 0 && steps[0].bound == 0
    && forall i :: 0 <= i < |steps| ==> steps[i].bound < Pow2(w)
  }

  ghost predicate SameSteps(w: nat, s: seq<Step>, t: seq<Step>) {
    forall a: nat | a < Pow2(w) :: StepAt(s, a) == StepAt(t, a)
  }

  lemma {:induction false} StepIs(s: seq<Step>, i: nat, a: nat)
    requires Ascending(s) && i < |s| && s[i].bound <= a && (i + 1 < |s| ==> a < s[i + 1].bound)
    ensures StepAt(s, a) == s[i].id
  {
    var n := |s| - 1;
    if i < n {
      assert s[n].bound > a;
      StepIs(s[..n], i, a);
    }
  }

  lemma {:induction false} StepHolding(s: seq<Step>, a: nat) returns (i: nat)
    requires Ascending(s) && |s| > 0 && s[0].bound <= a
    ensures i < |s| && s[i].bound <= a && (i + 1 < |s| ==> a < s[i + 1].bound)
  {
    var n := |s| - 1;
    if s[n].bound <= a {
      return n;
    }
    i := StepHolding(s[..n], a);
  }

  // Where a collapsed step function starts a step, any other one with the same values starts one too,
  // and not at an earlier position.
  lemma {:induction false} BoundShared(w: nat, s: seq<Step>, t: seq<Step>, i: nat) returns (j: nat)
    requires Steps(w, s) && Collapsed(s) && Steps(w, t) && SameSteps(w, s, t) && i < |s|
    ensures i <= j < |t| && t[j].bound == s[i].bound
  {
    hide StepAt;
    if i == 0 {
      return 0;
    }
    var before := BoundShared(w, s, t, i - 1);
    var b := s[i].bound;
    StepIs(s, i, b);
    StepIs(s, i - 1, b - 1);
    j := StepHolding(t, b);
    StepIs(t, j, b);
    assert StepAt(s, b) == StepAt(t, b) && StepAt(s, b - 1) == StepAt(t, b - 1);
    if t[j].bound < b {
      StepIs(t, j, b - 1);
    }
  }

  // No step function with the same values has fewer steps than a collapsed one.
  lemma FewestSteps(w: nat, s: seq<Step>, t: seq<Step>)
    requires Steps(w, s) && Collapsed(s) && Steps(w, t) && SameSteps(w, s, t)
    ensures |s| <= |t|
  {
    var j := BoundShared(w, s, t, |s| - 1);
  }

  // A table has one collapsed step function: two with the same values are equal.
  lemma CollapsedUnique(w: nat, s: seq<Step>, t: seq<Step>)
    requires Steps(w, s) && Collapsed(s) && Steps(w, t) && Collapsed(t) && SameSteps(w, s, t)
    ensures s == t
  {
    FewestSteps(w, s, t);
    FewestSteps(w, t, s);
    forall i | 0 <= i < |s| ensures s[i] == t[i] {
      SameStep(w, s, t, i);
    }
  }

  lemma SameStep(w: nat, s: seq<Step>, t: seq<Step>, i: nat)
    requires Steps(w, s) && Collapsed(s) && Steps(w, t) && Collapsed(t) && SameSteps(w, s, t)
    requires |s| == |t| && i < |s|
    ensures s[i] == t[i]
  {
    hide StepAt;
    var j := BoundShared(w, s, t, i);
    var k := BoundShared(w, t, s, i);
    assert s[i].bound == t[i].bound;
    StepIs(s, i, s[i].bound);
    StepIs(t, i, s[i].bound);
    assert StepAt(s, s[i].bound) == StepAt(t, s[i].bound);
  }
}
