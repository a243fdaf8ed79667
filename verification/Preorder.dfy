// The preorder catalogue: IPv4 first, then by address, then shortest first.  One pass with a stack of
// open ancestors recovers every route's parent and where its descendants end.
module Preorder {
  import opened Prefixes

  predicate Precedes(a: Network, b: Network) {
    if a.is4 != b.is4 then a.is4 else Before(a.prefix, b.prefix)
  }

  ghost predicate Catalogue(nets: seq<Network>) {
    && (forall i :: 0 <= i < |nets| ==> ValidNetwork(nets[i]))
    && (forall i, j :: 0 <= i < j < |nets| ==> Precedes(nets[i], nets[j]))
  }

  // Routes are numbered from 1; route 0 means no route.
  predicate IsRoute(nets: seq<Network>, r: int) {
    0 < r <= |nets|
  }

  function Route(nets: seq<Network>, r: int): Network
    requires IsRoute(nets, r)
  {
    nets[r - 1]
  }

  // A network of another family contains nothing.
  predicate Contains(n: Network, is4: bool, a: nat) {
    n.is4 == is4 && Covers(FamilyWidth(is4), n.prefix, a)
  }

  predicate RouteContains(nets: seq<Network>, j: int, is4: bool, a: nat)
    requires IsRoute(nets, j)
  {
    Contains(Route(nets, j), is4, a)
  }

  // Route j contains route r's address.
  predicate Holds(nets: seq<Network>, j: int, r: int)
    requires IsRoute(nets, j) && IsRoute(nets, r)
  {
    RouteContains(nets, j, Route(nets, r).is4, Route(nets, r).prefix.key)
  }

  // ---------------------------------------------------------------- order and containment

  lemma RoutesOrdered(nets: seq<Network>, j: int, r: int)
    requires Catalogue(nets) && 0 < j <= r <= |nets|
    ensures ValidNetwork(Route(nets, j)) && ValidNetwork(Route(nets, r))
    ensures j < r ==> Precedes(Route(nets, j), Route(nets, r))
  {
  }

  // A route that misses a later one's address misses every address after it.
  lemma ClosedForGood(nets: seq<Network>, j: int, r: int, m: int)
    requires Catalogue(nets) && 0 < j < r <= m <= |nets| && !Holds(nets, j, r)
    ensures !Holds(nets, j, m)
  {
    RoutesOrdered(nets, j, r);
    RoutesOrdered(nets, r, m);
    hide Catalogue, Route;
    var p, q, s := Route(nets, j), Route(nets, r), Route(nets, m);
    if p.is4 == s.is4 {
      var w := FamilyWidth(p.is4);
      CoversIsRange(w, p.prefix, q.prefix.key);
      CoversIsRange(w, p.prefix, s.prefix.key);
      hide Covers, FamilyWidth, Valid, Last;
    }
  }

  // What contains an address at or past a later route contains that route's address.
  lemma HoldsBetween(nets: seq<Network>, j: int, r: int, a: nat)
    requires Catalogue(nets) && 0 < j <= r <= |nets|
    requires Route(nets, r).prefix.key <= a && RouteContains(nets, j, Route(nets, r).is4, a)
    ensures Holds(nets, j, r)
  {
    RoutesOrdered(nets, j, r);
    hide Catalogue, Route;
    var p, q := Route(nets, j), Route(nets, r);
    var w := FamilyWidth(p.is4);
    CoversIsRange(w, p.prefix, q.prefix.key);
    CoversIsRange(w, p.prefix, a);
    hide Covers, FamilyWidth, Valid, Last;
  }

  // A later route containing an address is longer than an earlier one that does.
  lemma LaterContainsLonger(nets: seq<Network>, j: int, r: int, is4: bool, a: nat)
    requires Catalogue(nets) && 0 < j < r <= |nets|
    requires RouteContains(nets, j, is4, a) && RouteContains(nets, r, is4, a)
    ensures Route(nets, j).prefix.len < Route(nets, r).prefix.len
  {
    RoutesOrdered(nets, j, r);
    hide Catalogue, Route;
    var ps := [Route(nets, j).prefix, Route(nets, r).prefix];
    var w := FamilyWidth(is4);
    hide Covers, FamilyWidth, Valid;
    LaterIsLonger(w, ps, 0, 1, a);
  }

  lemma SelfHolds(nets: seq<Network>, r: int)
    requires Catalogue(nets) && IsRoute(nets, r)
    ensures Holds(nets, r, r)
  {
    SelfCovers(FamilyWidth(Route(nets, r).is4), Route(nets, r).prefix);
  }

  // What holds a route contains every address that route contains.
  lemma HoldsAll(nets: seq<Network>, j: int, r: int, a: nat)
    requires Catalogue(nets) && 0 < j <= r <= |nets| && Holds(nets, j, r)
    requires RouteContains(nets, r, Route(nets, r).is4, a)
    ensures RouteContains(nets, j, Route(nets, r).is4, a)
  {
    if j < r {
      SelfHolds(nets, r);
      var q := Route(nets, r);
      LaterContainsLonger(nets, j, r, q.is4, q.prefix.key);
      hide Catalogue, Route;
      var w := FamilyWidth(q.is4);
      hide Covers, FamilyWidth;
      Nested(w, Route(nets, j).prefix, q.prefix, q.prefix.key, a);
    }
  }

  // ---------------------------------------------------------------- parents and ends

  // The parent of route r is the last route before it that contains its address.
  ghost predicate ParentIs(nets: seq<Network>, r: int, p: nat)
    requires IsRoute(nets, r)
  {
    && p < r && (p > 0 ==> Holds(nets, p, r))
    && forall j :: p < j < r ==> !Holds(nets, j, r)
  }

  ghost predicate Parents(nets: seq<Network>, parent: seq<nat>, n: nat)
    requires n <= |nets|
  {
    |parent| == n + 1 && parent[0] == 0 && forall r :: 0 < r <= n ==> ParentIs(nets, r, parent[r])
  }

  // Descendants of route r: itself and the run of routes it contains, up to e.
  ghost predicate EndIs(nets: seq<Network>, r: int, e: nat)
    requires IsRoute(nets, r)
  {
    && r < e <= |nets| + 1
    && (forall j :: r <= j < e ==> Holds(nets, r, j))
    && (forall j :: e <= j <= |nets| ==> !Holds(nets, r, j))
  }

  // ---------------------------------------------------------------- the stack of open ancestors

  ghost predicate Numbered(nets: seq<Network>, stack: seq<nat>, n: nat) {
    && n <= |nets|
    && (forall k :: 0 <= k < |stack| ==> 0 < stack[k] <= n)
    && (forall k, l :: 0 <= k < l < |stack| ==> stack[k] < stack[l])
  }

  // Open ancestors contain every route since they were pushed.
  ghost predicate Spanning(nets: seq<Network>, stack: seq<nat>, n: nat)
    requires Numbered(nets, stack, n)
  {
    forall k, m :: 0 <= k < |stack| && stack[k] <= m <= n ==> Holds(nets, stack[k], m)
  }

  // A route no longer on the stack contains nothing still to come.
  ghost predicate Finished(nets: seq<Network>, stack: seq<nat>, n: nat)
    requires n <= |nets|
  {
    forall j: nat, m :: 0 < j <= n < m <= |nets| && j !in stack ==> !Holds(nets, j, m)
  }

  ghost predicate Open(nets: seq<Network>, stack: seq<nat>, n: nat) {
    Numbered(nets, stack, n) && Spanning(nets, stack, n) && Finished(nets, stack, n)
  }

  // Popped down to depth k: everything above has missed the address of route r = n + 1.
  ghost predicate Popped(nets: seq<Network>, stack: seq<nat>, k: nat, n: nat) {
    && Numbered(nets, stack, n) && n < |nets| && k <= |stack|
    && (forall l :: k <= l < |stack| ==> !Holds(nets, stack[l], n + 1))
  }

  function Top(stack: seq<nat>, k: nat): nat
    requires k <= |stack|
  {
    if k == 0 then 0 else stack[k - 1]
  }

  lemma AboveTop(nets: seq<Network>, stack: seq<nat>, k: nat, n: nat, j: nat)
    requires Popped(nets, stack, k, n) && Finished(nets, stack, n) && Top(stack, k) < j <= n
    ensures !Holds(nets, j, n + 1)
  {
    hide Holds;
    if j in stack {
      var l :| 0 <= l < |stack| && stack[l] == j;
      BelowTop(nets, stack, k, n, l);
    }
  }

  lemma BelowTop(nets: seq<Network>, stack: seq<nat>, k: nat, n: nat, l: nat)
    requires Numbered(nets, stack, n) && l < |stack| && k <= |stack|
    ensures l < k ==> stack[l] <= Top(stack, k)
  {
  }

  lemma PoppedParent(nets: seq<Network>, stack: seq<nat>, k: nat, n: nat)
    requires Popped(nets, stack, k, n) && Finished(nets, stack, n)
    requires k > 0 ==> Holds(nets, stack[k - 1], n + 1)
    ensures ParentIs(nets, n + 1, Top(stack, k))
  {
    var r := n + 1;
    forall j: nat | Top(stack, k) < j < r ensures !Holds(nets, j, r) {
      AboveTop(nets, stack, k, n, j);
    }
  }

  lemma PushedSpans(nets: seq<Network>, stack: seq<nat>, k: nat, n: nat, next: seq<nat>)
    requires Catalogue(nets) && Numbered(nets, stack, n) && Spanning(nets, stack, n) && n < |nets| && k <= |stack|
    requires k > 0 ==> Holds(nets, stack[k - 1], n + 1)
    requires next == stack[..k] + [n + 1]
    ensures Numbered(nets, next, n + 1) && Spanning(nets, next, n + 1)
  {
    SelfHolds(nets, n + 1);
    hide Catalogue, RouteContains, Route;
    forall l | 0 <= l < k ensures Holds(nets, stack[l], n + 1) {
      assert l < k - 1 ==> stack[l] < stack[k - 1];
      assert Holds(nets, stack[l], stack[k - 1]);
      HoldsAll(nets, stack[l], stack[k - 1], Route(nets, n + 1).prefix.key);
    }
    hide Holds;
  }

  lemma PushedFinished(nets: seq<Network>, stack: seq<nat>, k: nat, n: nat, next: seq<nat>)
    requires Catalogue(nets) && Popped(nets, stack, k, n) && Finished(nets, stack, n)
    requires next == stack[..k] + [n + 1]
    ensures Finished(nets, next, n + 1)
  {
    hide Catalogue, Holds;
    forall j: nat, m | 0 < j <= n + 1 < m <= |nets| && j !in next ensures !Holds(nets, j, m) {
      assert next[k] == n + 1;
      if j in stack {
        var l :| 0 <= l < |stack| && stack[l] == j;
        StaysOn(stack, k, n + 1, l);
        ClosedForGood(nets, j, n + 1, m);
      }
    }
  }

  lemma StaysOn(stack: seq<nat>, k: nat, r: nat, l: nat)
    requires k <= |stack| && l < |stack|
    ensures l < k ==> stack[l] in stack[..k] + [r]
  {
    if l < k {
      assert (stack[..k] + [r])[l] == stack[l];
    }
  }

  // Popped while route n + 1 arrives, a route's descendants end there.
  lemma PoppedEnd(nets: seq<Network>, stack: seq<nat>, k: nat, n: nat)
    requires Catalogue(nets) && Open(nets, stack, n) && k < |stack| && n < |nets| && !Holds(nets, stack[k], n + 1)
    ensures EndIs(nets, stack[k], n + 1)
  {
    var r := stack[k];
    hide Catalogue, Holds;
    forall j | n + 1 <= j <= |nets| ensures !Holds(nets, r, j) {
      ClosedForGood(nets, r, n + 1, j);
    }
  }

  // ---------------------------------------------------------------- the longest match

  // The match for an address is the last route containing it.
  ghost predicate LastContaining(nets: seq<Network>, is4: bool, a: nat, route: nat) {
    && route <= |nets| && (route > 0 ==> RouteContains(nets, route, is4, a))
    && forall j :: route < j <= |nets| ==> !RouteContains(nets, j, is4, a)
  }

  // The routes from p up to r, r excluded, miss the address.
  ghost predicate NoneBetween(nets: seq<Network>, p: nat, r: nat, is4: bool, a: nat)
    requires r <= |nets| + 1
  {
    forall j :: p < j < r ==> !RouteContains(nets, j, is4, a)
  }

  // Between a route at or below the address and its parent no route contains the address.
  lemma ParentSkipsNone(nets: seq<Network>, r: int, p: nat, a: nat)
    requires Catalogue(nets) && IsRoute(nets, r) && ParentIs(nets, r, p) && Route(nets, r).prefix.key <= a
    ensures NoneBetween(nets, p, r, Route(nets, r).is4, a)
  {
    hide Catalogue, RouteContains, Route;
    forall j | p < j < r ensures !RouteContains(nets, j, Route(nets, r).is4, a) {
      if RouteContains(nets, j, Route(nets, r).is4, a) {
        HoldsBetween(nets, j, r, a);
      }
    }
  }

  // The longest match is the last route containing the address.
  lemma LastIsLongest(nets: seq<Network>, is4: bool, a: nat, route: nat)
    requires Catalogue(nets) && LastContaining(nets, is4, a, route)
    ensures route > 0 ==> Route(nets, route) in nets
    ensures forall n <- nets :: Contains(n, is4, a) ==> route > 0 && n.prefix.len <= Route(nets, route).prefix.len
  {
    hide Catalogue, Contains;
    forall n | n in nets && Contains(n, is4, a) ensures route > 0 && n.prefix.len <= Route(nets, route).prefix.len {
      var i :| 0 <= i < |nets| && nets[i] == n;
      var j: nat := i + 1;
      assert RouteContains(nets, j, is4, a);
      if j < route {
        LaterContainsLonger(nets, j, route, is4, a);
      }
    }
  }

  // ---------------------------------------------------------------- fiborderwalk's pass

  // Pops the open routes that do not contain route n + 1 and stamps it as their end.
  method EndFinished(nets: seq<Network>, open: seq<nat>, n: nat, end: array<nat>) returns (stack: seq<nat>)
    requires Catalogue(nets) && n < |nets| && Open(nets, open, n) && Ended(nets, open, end[..], n)
    modifies end
    ensures |stack| <= |open| && stack == open[..|stack|] && Popped(nets, open, |stack|, n)
    ensures |stack| > 0 ==> Holds(nets, stack[|stack| - 1], n + 1)
    ensures Ended(nets, stack, end[..], n)
  {
    hide Catalogue, Holds, EndIs, ParentIs;
    stack := open;
    while |stack| > 0 && !Holds(nets, stack[|stack| - 1], n + 1)
      invariant |stack| <= |open| && stack == open[..|stack|] && Popped(nets, open, |stack|, n)
      invariant Ended(nets, stack, end[..], n)
    {
      var finished := stack[|stack| - 1];
      PoppedEnd(nets, open, |stack| - 1, n);
      StampEnd(nets, stack, end[..], n, n + 1);
      stack := stack[..|stack| - 1];
      end[finished] := n + 1;
    }
  }

  // Parent and end of every route from one pass over the sorted catalogue.
  method PrepareRoutes(nets: seq<Network>) returns (parent: seq<nat>, end: array<nat>)
    requires Catalogue(nets)
    ensures Parents(nets, parent, |nets|)
    ensures end.Length == |nets| + 1 && forall r :: 0 < r <= |nets| ==> EndIs(nets, r, end[r])
  {
    parent := [0];
    end := new nat[|nets| + 1];
    var stack: seq<nat> := [];
    hide Catalogue, Holds, EndIs, ParentIs;
    for i := 0 to |nets|
      invariant Parents(nets, parent, i) && Open(nets, stack, i)
      invariant Ended(nets, stack, end[..], i)
    {
      ghost var open := stack;
      stack := EndFinished(nets, stack, i, end);
      PoppedParent(nets, open, |stack|, i);
      PushedSpans(nets, open, |stack|, i, stack + [i + 1]);
      PushedFinished(nets, open, |stack|, i, stack + [i + 1]);
      parent := parent + [Top(stack, |stack|)];
      stack := stack + [i + 1];
    }
    ghost var open := stack;
    while |stack| > 0
      invariant |stack| <= |open| && stack == open[..|stack|]
      invariant Ended(nets, stack, end[..], |nets|)
    {
      var last := stack[|stack| - 1];
      LeftOpen(nets, open, |stack| - 1);
      StampEnd(nets, stack, end[..], |nets|, |nets| + 1);
      stack := stack[..|stack| - 1];
      end[last] := |nets| + 1;
    }
  }

  // Every route that has left the stack has its end stamped.
  ghost predicate Ended(nets: seq<Network>, stack: seq<nat>, end: seq<nat>, n: nat) {
    && n <= |nets| && |end| == |nets| + 1
    && forall r: nat :: 0 < r <= n && r !in stack ==> EndIs(nets, r, end[r])
  }

  lemma StampEnd(nets: seq<Network>, stack: seq<nat>, end: seq<nat>, n: nat, e: nat)
    requires Ended(nets, stack, end, n) && |stack| > 0 && 0 < stack[|stack| - 1] <= |nets|
    requires EndIs(nets, stack[|stack| - 1], e)
    ensures Ended(nets, stack[..|stack| - 1], end[stack[|stack| - 1] := e], n)
  {
    var rest, last := stack[..|stack| - 1], stack[|stack| - 1];
    assert stack == rest + [last];
    hide EndIs;
  }

  lemma LeftOpen(nets: seq<Network>, stack: seq<nat>, k: nat)
    requires Open(nets, stack, |nets|) && k < |stack|
    ensures EndIs(nets, stack[k], |nets| + 1)
  {
  }

  // The descendants fiborderwalk's interval yields are the routes the prefix contains, no longer ones
  // left out and no shorter ones let in.
  lemma IntervalIsDescendants(nets: seq<Network>, r: int, e: nat, j: int)
    requires Catalogue(nets) && IsRoute(nets, r) && IsRoute(nets, j) && EndIs(nets, r, e)
    ensures r <= j < e <==> Holds(nets, r, j) && Route(nets, r).prefix.len <= Route(nets, j).prefix.len
  {
    hide Catalogue, RouteContains, Route;
    SelfHolds(nets, j);
    if r < j < e {
      assert Holds(nets, r, j);
      LaterContainsLonger(nets, r, j, Route(nets, j).is4, Route(nets, j).prefix.key);
    }
    if j < r && Holds(nets, r, j) {
      LaterContainsLonger(nets, j, r, Route(nets, j).is4, Route(nets, j).prefix.key);
    }
  }
}
