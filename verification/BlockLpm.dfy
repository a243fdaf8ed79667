// blocklpm.New and its lookups over both families: entries in any order, value indices in that
// order, and each lookup returning the value of the longest covering entry.
module BlockLpm {
  import opened Bits
  import opened Prefixes
  import opened Words
  import opened Octets
  import opened Options
  import opened Sorting
  import opened Painting
  import opened Blocks4
  import opened Blocks6

  datatype Index = Index(v4: Table4, v6: Table6, values: seq<nat>)

  // An entry maps a prefix to the route id the caller chose for it.
  datatype Route = Route(network: Network, id: nat)

  ghost predicate ValidRoutes(routes: seq<Route>) {
    forall i :: 0 <= i < |routes| ==> ValidNetwork(routes[i].network) && routes[i].id > 0
  }

  // The routes as a table, later ones for a network replacing earlier ones.
  ghost function TableOf(routes: seq<Route>): map<Network, nat> {
    if |routes| == 0 then map[]
    else TableOf(routes[..|routes| - 1])[routes[|routes| - 1].network := routes[|routes| - 1].id]
  }

  // The last route for each network counts, and nothing else is in the table.
  lemma {:induction false} TableMeans(routes: seq<Route>)
    ensures forall i | 0 <= i < |routes| && (forall j :: i < j < |routes| ==> routes[j].network != routes[i].network) ::
              routes[i].network in TableOf(routes) && TableOf(routes)[routes[i].network] == routes[i].id
    ensures forall n <- TableOf(routes) :: exists i :: 0 <= i < |routes| && routes[i].network == n
  {
    if |routes| > 0 {
      var front, last := routes[..|routes| - 1], routes[|routes| - 1];
      TableMeans(front);
      forall i | 0 <= i < |routes| && (forall j :: i < j < |routes| ==> routes[j].network != routes[i].network)
        ensures routes[i].network in TableOf(routes) && TableOf(routes)[routes[i].network] == routes[i].id
      {
        if i < |front| {
          assert forall j :: i < j < |front| ==> front[j].network == routes[j].network;
          assert front[i] == routes[i];
        }
      }
      forall n <- TableOf(routes) ensures exists i :: 0 <= i < |routes| && routes[i].network == n {
        if n != last.network {
          var i :| 0 <= i < |front| && front[i].network == n;
          assert routes[i].network == n;
        }
      }
    }
  }

  // One family's entries, numbered by position from 1.
  function Entries(routes: seq<Route>, is4: bool): (es: seq<Entry>)
  {
    if |routes| == 0 then []
    else
      var front := Entries(routes[..|routes| - 1], is4);
      var r := routes[|routes| - 1];
      if r.network.is4 == is4 then front + [Entry(r.network.prefix, |routes|)] else front
  }

  // The value index of each prefix of a family.
  ghost function Positions(routes: seq<Route>, is4: bool): map<Prefix, nat> {
    if |routes| == 0 then map[]
    else
      var front := Positions(routes[..|routes| - 1], is4);
      var r := routes[|routes| - 1];
      if r.network.is4 == is4 then front[r.network.prefix := |routes|] else front
  }

  // The entries list those indices.
  lemma {:induction false} EntriesPosition(routes: seq<Route>, is4: bool, p: Prefix)
    ensures LastValue(Entries(routes, is4), p) ==
              if p in Positions(routes, is4) then Some(Positions(routes, is4)[p]) else None
  {
    if |routes| > 0 {
      EntriesPosition(routes[..|routes| - 1], is4, p);
    }
  }

  ghost predicate EntryFits(w: nat, n: nat, e: Entry) {
    Valid(w, e.p) && 0 < e.value <= n
  }

  lemma {:induction false} EntriesFit(routes: seq<Route>, is4: bool)
    requires ValidRoutes(routes)
    ensures forall e <- Entries(routes, is4) :: EntryFits(FamilyWidth(is4), |routes|, e)
  {
    if |routes| > 0 {
      var r, front := routes[|routes| - 1], routes[..|routes| - 1];
      assert ValidNetwork(r.network);
      hide Valid;
      EntriesFit(front, is4);
      assert forall e <- Entries(front, is4) :: EntryFits(FamilyWidth(is4), |front|, e);
    }
  }

  // Each prefix of the family has the index of its last route, whose id is the table's.
  lemma {:induction false} PositionsMatch(routes: seq<Route>, is4: bool, p: Prefix)
    ensures p in Positions(routes, is4) <==> Network(is4, p) in TableOf(routes)
    ensures p in Positions(routes, is4) ==> var v := Positions(routes, is4)[p];
              0 < v <= |routes| && routes[v - 1].id == TableOf(routes)[Network(is4, p)]
  {
    if |routes| > 0 {
      PositionsMatch(routes[..|routes| - 1], is4, p);
    }
  }

  function ByLength(e: Entry): Key {
    (e.p.len, 0)
  }

  // Sorting by length keeps the entries and what they list, and makes them shortest first.
  lemma SortedEntries(routes: seq<Route>, is4: bool, es: seq<Entry>)
    requires ValidRoutes(routes) && es == Sort(Entries(routes, is4), ByLength)
    ensures ShortFirst(es) && ValidEntries(FamilyWidth(is4), es) && Lists(es, Positions(routes, is4))
    ensures forall i :: 0 <= i < |es| ==> 0 < es[i].value <= |routes|
  {
    hide *;
    LengthSorted(es);
    SortedSound(routes, is4, es);
    SortedLists(routes, is4, es);
  }

  lemma SortedSound(routes: seq<Route>, is4: bool, es: seq<Entry>)
    requires ValidRoutes(routes) && es == Sort(Entries(routes, is4), ByLength)
    ensures ValidEntries(FamilyWidth(is4), es) && forall i :: 0 <= i < |es| ==> 0 < es[i].value <= |routes|
  {
    hide *;
    EntriesFit(routes, is4);
    SameElements(es, Entries(routes, is4));
    AllFit(FamilyWidth(is4), |routes|, es);
  }

  lemma AllFit(w: nat, n: nat, es: seq<Entry>)
    requires forall e <- es :: EntryFits(w, n, e)
    ensures ValidEntries(w, es) && forall i :: 0 <= i < |es| ==> 0 < es[i].value <= n
  {
    hide Valid;
    assert forall i :: 0 <= i < |es| ==> es[i] in es;
  }

  lemma SortedLists(routes: seq<Route>, is4: bool, es: seq<Entry>)
    requires es == Sort(Entries(routes, is4), ByLength)
    ensures Lists(es, Positions(routes, is4))
  {
    hide Entries, Positions, Sort, LastValue, ByLength;
    forall p ensures LastValue(es, p) == if p in Positions(routes, is4) then Some(Positions(routes, is4)[p]) else None {
      EntriesPosition(routes, is4, p);
      SortKeepsEntry(Entries(routes, is4), p);
    }
  }

  lemma SortKeepsEntry(es: seq<Entry>, p: Prefix)
    ensures LastValue(Sort(es, ByLength), p) == LastValue(es, p)
  {
    var kind := (e: Entry) => e.p == p;
    SortKeepsLast(es, ByLength, kind);
    LastValueWhere(es, p, kind);
    LastValueWhere(Sort(es, ByLength), p, kind);
  }

  lemma {:induction false} LastValueWhere(es: seq<Entry>, p: Prefix, kind: Entry -> bool)
    requires forall e :: kind(e) <==> e.p == p
    ensures LastWhere(es, kind).Some? == LastValue(es, p).Some?
    ensures LastValue(es, p).Some? ==> LastWhere(es, kind).value.value == LastValue(es, p).value
  {
    if |es| > 0 {
      LastValueWhere(es[..|es| - 1], p, kind);
    }
  }

  lemma LengthSorted(es: seq<Entry>)
    requires Sorted(es, ByLength)
    ensures ShortFirst(es)
  {
    assert forall i, j :: 0 <= i < j < |es| ==> !KeyLess(ByLength(es[j]), ByLength(es[i]));
  }

  // What one IPv6 route can add to the blocks, and how many routes their 32-bit indices are sure to hold.
  const ROUTE_CELLS := DEEP * BLOCK
  const MAX_ROUTES6 := CELLS / ROUTE_CELLS

  // The ghost shape the lookups of a compiled index rely on.
  ghost predicate Compiled(ix: Index, routes: seq<Route>, es4: seq<Entry>, home2: seq<nat>, home3: seq<nat>,
                           es6: seq<Entry>, root: Node)
  {
    && |ix.values| == |routes| + 1 <= NEXT && ix.values[0] == 0
    && (forall i :: 0 <= i < |routes| ==> ix.values[i + 1] == routes[i].id)
    && ValidRoutes(routes)
    && ShortFirst(es4) && ValidEntries(32, es4) && Lists(es4, Positions(routes, true)) && Small(es4)
    && TableRight(es4, ix.v4, home2, home3)
    && ShortFirst(es6) && ValidEntries(128, es6) && Lists(es6, Positions(routes, false))
    && Painted(root, es6, |es6|) && root.value < NEXT && TableRight6(ix.v6, root)
    && |ix.v6.blocks| <= ROUTE_CELLS * |Entries(routes, false)|
  }

  // A whole index: its lookups answer the routes.
  ghost predicate Answering(ix: Index, routes: seq<Route>) {
    exists es4, home2, home3, es6, root :: Compiled(ix, routes, es4, home2, home3, es6, root)
  }

  // Refused exactly when the value indices would reach the tag bit.
  method New(routes: seq<Route>) returns (ix: Index, full: bool)
    requires ValidRoutes(routes)
    ensures full <==> |routes| >= NEXT
    ensures !full ==> Answering(ix, routes)
  {
    hide TableRight, TableRight6, Lists, ShortFirst, ValidEntries, Painted, Entries, SmallValues, Shallow, Deeper,
         ValidRoutes, Needs, Small, Sort;
    ix := Index(Table4([], [], [], Numbered), Table6([], []), []);
    var values;
    values, full := Values(routes);
    if full {
      return;
    }
    var es4 := Sort(Entries(routes, true), ByLength);
    var es6 := Sort(Entries(routes, false), ByLength);
    SortedEntries(routes, true, es4);
    SortedEntries(routes, false, es6);
    AllSmall(es4, |routes|);
    AllSmall(es6, |routes|);
    var t4, tooLarge, home2, home3, need3 := Compile4(es4, Numbered);
    var root := BuildTrie(es6);
    RootSmall(root);
    var t6 := FlattenRoot(root);
    ix := Index(t4, t6, values);
    assert Compiled(ix, routes, es4, home2, home3, es6, root);
  }

  // One value a route, after the reserved zero.
  method Values(routes: seq<Route>) returns (values: seq<nat>, full: bool)
    ensures full <==> |routes| >= NEXT
    ensures !full ==> |values| == |routes| + 1 && values[0] == 0
    ensures !full ==> forall i :: 0 <= i < |routes| ==> values[i + 1] == routes[i].id
  {
    values := [0];
    for i := 0 to |routes|
      invariant |values| == i + 1 <= NEXT && values[0] == 0
      invariant forall j :: 0 <= j < i ==> values[j + 1] == routes[j].id
    {
      if |values| == NEXT {
        return values, true;
      }
      values := values + [routes[i].id];
    }
    full := false;
  }

  lemma AllSmall(es: seq<Entry>, n: nat)
    requires n < NEXT && forall i :: 0 <= i < |es| ==> 0 < es[i].value <= n
    ensures Small(es)
  {
  }

  lemma RootSmall(root: Node)
    requires SmallValues(root, 16)
    ensures root.value < NEXT
  {
  }

  // Answers over value indices become answers over what they hold.
  lemma AnswersMap(w: nat, mp: map<Prefix, nat>, fm: map<Prefix, nat>, values: seq<nat>, key: nat, cell: nat)
    requires Answers(w, mp, key, cell) && |values| > 0 && values[0] == 0 && mp.Keys == fm.Keys
    requires forall p <- mp :: 0 < mp[p] < |values| && values[mp[p]] == fm[p]
    ensures cell < |values| && Answers(w, fm, key, values[cell])
  {
    hide Covers;
    if exists p <- mp.Keys :: Covers(w, p, key) {
      var p :| p in mp.Keys && Longest(w, mp.Keys, key, p) && mp[p] == cell;
      assert Longest(w, fm.Keys, key, p);
    }
  }

  lemma PositionValues(routes: seq<Route>, is4: bool, values: seq<nat>)
    requires |values| == |routes| + 1 && forall i :: 0 <= i < |routes| ==> values[i + 1] == routes[i].id
    ensures Positions(routes, is4).Keys == Family(TableOf(routes), is4).Keys
    ensures forall p <- Positions(routes, is4) ::
              0 < Positions(routes, is4)[p] < |values|
              && values[Positions(routes, is4)[p]] == Family(TableOf(routes), is4)[p]
  {
    var mp, fm := Positions(routes, is4), Family(TableOf(routes), is4);
    hide Positions, TableOf, Family;
    forall p: Prefix ensures p in mp <==> p in fm {
      PositionsMatch(routes, is4, p);
      FamilyHas(TableOf(routes), is4, p);
    }
    forall p <- mp ensures p in fm && 0 < mp[p] < |values| && values[mp[p]] == fm[p] {
      PositionsMatch(routes, is4, p);
      FamilyHas(TableOf(routes), is4, p);
      assert values[mp[p] - 1 + 1] == routes[mp[p] - 1].id;
    }
  }

  // The id of the longest covering route, and zero exactly when none covers.
  method Lookup(ix: Index, is4: bool, key: nat, ghost routes: seq<Route>) returns (id: nat, found: bool)
    requires Answering(ix, routes) && key < Pow2(FamilyWidth(is4))
    requires is4 || |Entries(routes, false)| <= MAX_ROUTES6
    ensures Answers(FamilyWidth(is4), Family(TableOf(routes), is4), key, id) && (found <==> id != 0)
  {
    hide Answers, Family, TableOf, Positions;
    ghost var es4, home2, home3, es6, root :| Compiled(ix, routes, es4, home2, home3, es6, root);
    PositionValues(routes, is4, ix.values);
    var cell;
    if is4 {
      cell := Lookup4(ix.v4, key, es4, home2, home3);
      OverIsAnswer(32, es4, Positions(routes, true), key);
    } else {
      WideParts(key);
      cell := Lookup6(ix.v6, High(key), Low(key), root);
      FollowIsOver(root, es6, key);
      OverIsAnswer(128, es6, Positions(routes, false), key);
    }
    AnswersMap(FamilyWidth(is4), Positions(routes, is4), Family(TableOf(routes), is4), ix.values, key, cell);
    IdPositive(routes, ix.values, cell);
    if cell != 0 {
      return ix.values[cell], true;
    }
    return 0, false;
  }

  lemma FollowIsOver(root: Node, es: seq<Entry>, key: nat)
    requires Painted(root, es, |es|) && key < Pow2(128)
    ensures Follow(root, KeyOctets(16, key), 0, 0) == Over(128, es, 0, 128, key, 0)
  {
    assert es[..|es|] == es;
  }

  lemma IdPositive(routes: seq<Route>, values: seq<nat>, cell: nat)
    requires ValidRoutes(routes) && |values| == |routes| + 1 && values[0] == 0 && cell < |values|
    requires forall i :: 0 <= i < |routes| ==> values[i + 1] == routes[i].id
    ensures cell == 0 <==> values[cell] == 0
  {
    if cell > 0 {
      assert values[cell - 1 + 1] == routes[cell - 1].id;
    }
  }
}
